/**
 Splitting a console line into arguments: esp_console_split_argv of components/console/split_argv.c,
 which works in place: it overwrites the line with the arguments, each followed by a NUL.
 */
module SplitArgv {
  import opened Common

  const NUL: byte := 0
  const QUOTE: byte := 34
  const ESCAPE: byte := 92
  const SPACE: byte := 32

  /** split_state_t */
  datatype Mode = Between | Arg | QuotedArg | ArgEscaped | QuotedArgEscaped

  predicate Special(c: byte) {
    c == ESCAPE || c == QUOTE || c == SPACE
  }

  /** The character c completes the current argument. */
  predicate Ends(mode: Mode, c: byte) {
    (mode.QuotedArg? && c == QUOTE) || (mode.Arg? && c == SPACE)
  }

  /** Otherwise it changes the mode and may add to the current argument. */
  function Step(mode: Mode, cur: seq<byte>, c: byte): (Mode, seq<byte>) {
    match mode
    case Between =>
      if c == SPACE then (Between, [])
      else if c == QUOTE then (QuotedArg, [])
      else if c == ESCAPE then (ArgEscaped, [])
      else (Arg, [c])
    case QuotedArg => if c == ESCAPE then (QuotedArgEscaped, cur) else (QuotedArg, cur + [c])
    case Arg => if c == ESCAPE then (ArgEscaped, cur) else (Arg, cur + [c])
    case QuotedArgEscaped => (QuotedArg, if Special(c) then cur + [c] else cur)
    case ArgEscaped => (Arg, if Special(c) then cur + [c] else cur)
  }

  /**
     The arguments of the text s, at most `room` of them, when the splitter is in the given mode and has read
     `cur` of the current argument.
   */
  function Tokens(s: seq<byte>, mode: Mode, cur: seq<byte>, room: nat): (args: seq<seq<byte>>)
    ensures |args| <= room
    decreases |s|
  {
    if room == 0 then []
    else if s == [] then if mode.Between? then [] else [cur]
    else if Ends(mode, s[0]) then [cur] + Tokens(s[1..], Between, [], room - 1)
    else
      var (mode', cur') := Step(mode, cur, s[0]);
      Tokens(s[1..], mode', cur', room)
  }

  // ---------------------------------------------------------------- layout in memory

  /** The arguments one after the other, each terminated by a NUL. */
  function Pack(args: seq<seq<byte>>): seq<byte> {
    if args == [] then [] else Pack(args[..|args| - 1]) + args[|args| - 1] + [NUL]
  }

  /** Where argument k starts in the packed line. */
  function Start(args: seq<seq<byte>>, k: nat): nat
    requires k <= |args|
  {
    |Pack(args[..k])|
  }

  lemma {:induction false} PackPrefix(args: seq<seq<byte>>, k: nat)
    requires k <= |args|
    ensures Pack(args[..k]) <= Pack(args)
    decreases |args| - k
  {
    if k < |args| {
      assert args[..k + 1][..k] == args[..k];
      PackPrefix(args, k + 1);
    } else {
      assert args[..k] == args;
    }
  }

  lemma PackOne(args: seq<seq<byte>>, arg: seq<byte>)
    ensures Pack(args + [arg]) == Pack(args) + arg + [NUL]
  {
    assert (args + [arg])[..|args|] == args;
  }

  /** The packed arguments are terminated segments, in order and disjoint. */
  lemma PackedSegment(args: seq<seq<byte>>, k: nat)
    requires k < |args|
    ensures var p, q := Start(args, k), Start(args, k) + |args[k]|;
            && q + 1 == Start(args, k + 1) <= |Pack(args)|
            && Pack(args)[p..q] == args[k] && Pack(args)[q] == NUL
  {
    var before, arg := args[..k], args[k];
    assert args[..k + 1] == before + [arg];
    PackOne(before, arg);
    PackPrefix(args, k + 1);
    hide Pack;
    var all, upTo := Pack(args), Pack(before) + arg + [NUL];
    assert all[..|upTo|] == upTo;
    var p := |Pack(before)|;
    assert upTo[p..p + |arg|] == arg && upTo[p + |arg|] == NUL;
  }

  ghost predicate NoNul(s: seq<byte>) {
    forall i | 0 <= i < |s| :: s[i] != NUL
  }

  /** Arguments of a NUL-free text are NUL-free, so that their terminators end them. */
  lemma {:induction false} TokensNoNul(s: seq<byte>, mode: Mode, cur: seq<byte>, room: nat)
    requires NoNul(s) && NoNul(cur)
    ensures forall k | 0 <= k < |Tokens(s, mode, cur, room)| :: NoNul(Tokens(s, mode, cur, room)[k])
    decreases |s|
  {
    if room > 0 && s != [] {
      assert s[0] != NUL && NoNul(s[1..]);
      if Ends(mode, s[0]) {
        TokensNoNul(s[1..], Between, [], room - 1);
      } else {
        var (mode', cur') := Step(mode, cur, s[0]);
        TokensNoNul(s[1..], mode', cur', room);
      }
    }
  }

  /** argv_size only truncates: with less room the splitter returns the first arguments it would return with more. */
  lemma {:induction false} RoomTruncates(s: seq<byte>, mode: Mode, cur: seq<byte>, room: nat, more: nat)
    requires room <= more
    ensures var all := Tokens(s, mode, cur, more);
            Tokens(s, mode, cur, room) == all[..Min(room, |all|)]
    decreases |s|
  {
    if room > 0 && s != [] {
      if Ends(mode, s[0]) {
        RoomTruncates(s[1..], Between, [], room - 1, more - 1);
      } else {
        var (mode', cur') := Step(mode, cur, s[0]);
        RoomTruncates(s[1..], mode', cur', room, more);
      }
    }
  }

  // ---------------------------------------------------------------- round trip

  /** The text of an argument between quotes: backslash and quote are escaped. */
  function Escaped(a: seq<byte>): seq<byte> {
    if a == [] then []
    else (if a[0] == ESCAPE || a[0] == QUOTE then [ESCAPE, a[0]] else [a[0]]) + Escaped(a[1..])
  }

  /** A line that quotes each argument. */
  function Quoted(args: seq<seq<byte>>): seq<byte> {
    if args == [] then [] else [QUOTE] + Escaped(args[0]) + [QUOTE, SPACE] + Quoted(args[1..])
  }

  lemma TokensCons(c: byte, rest: seq<byte>, mode: Mode, cur: seq<byte>, room: nat)
    requires room > 0 && !Ends(mode, c)
    ensures Tokens([c] + rest, mode, cur, room) == Tokens(rest, Step(mode, cur, c).0, Step(mode, cur, c).1, room)
  {
    assert ([c] + rest)[1..] == rest;
  }

  lemma {:induction false} QuotedArgument(a: seq<byte>, cur: seq<byte>, rest: seq<byte>, room: nat)
    requires room > 0
    ensures Tokens(Escaped(a) + [QUOTE] + rest, QuotedArg, cur, room) == [cur + a] + Tokens(rest, Between, [], room - 1)
    decreases |a|
  {
    var s := Escaped(a) + [QUOTE] + rest;
    if a == [] {
      assert s[1..] == rest && cur + a == cur;
    } else {
      var c, tail := a[0], Escaped(a[1..]) + [QUOTE] + rest;
      assert cur + [c] + a[1..] == cur + a;
      QuotedArgument(a[1..], cur + [c], rest, room);
      if c == ESCAPE || c == QUOTE {
        assert s == [ESCAPE] + ([c] + tail);
        TokensCons(ESCAPE, [c] + tail, QuotedArg, cur, room);
        TokensCons(c, tail, QuotedArgEscaped, cur, room);
      } else {
        assert s == [c] + tail;
        TokensCons(c, tail, QuotedArg, cur, room);
      }
    }
  }

  /** Quoting any arguments and splitting the line gives them back, if argv has room for them. */
  lemma {:induction false} QuoteThenSplit(args: seq<seq<byte>>, room: nat)
    requires |args| <= room
    ensures Tokens(Quoted(args), Between, [], room) == args
    decreases |args|
  {
    if args != [] {
      var rest := [SPACE] + Quoted(args[1..]);
      var s := Quoted(args);
      assert s[1..] == Escaped(args[0]) + [QUOTE] + rest;
      assert s[0] == QUOTE;
      QuotedArgument(args[0], [], rest, room);
      QuoteThenSplit(args[1..], room - 1);
      assert rest[1..] == Quoted(args[1..]);
      assert [] + args[0] == args[0];
    }
  }

  // ---------------------------------------------------------------- the splitter

  /** The pointers in argv point at the packed arguments. */
  ghost predicate PointsAt(argv: seq<Option<nat>>, args: seq<seq<byte>>) {
    |args| <= |argv| && forall k | 0 <= k < |args| :: argv[k] == Some(Start(args, k))
  }

  lemma PointOn(argv: seq<Option<nat>>, args: seq<seq<byte>>, arg: seq<byte>)
    requires |args| < |argv| && PointsAt(argv, args)
    ensures PointsAt(argv[|args| := Some(|Pack(args)|)], args + [arg])
  {
    var more := args + [arg];
    assert more[..|args|] == args;
    forall k | 0 <= k < |more|
      ensures argv[|args| := Some(|Pack(args)|)][k] == Some(Start(more, k))
    {
      assert more[..k] == args[..k];
      assert k == |args| ==> args[..k] == args;
    }
  }

  /**
     The switch statement of the splitter: the next mode, the byte to output, if any, and whether the current
     argument is complete (END_ARG).
   */
  method Switch(mode: Mode, c: byte, ghost cur: seq<byte>) returns (mode': Mode, output: Option<byte>, done: bool)
    requires mode.Between? ==> cur == []
    ensures done == Ends(mode, c)
    ensures done ==> !mode.Between? && mode' == Between && output == Some(NUL)
    ensures !done && mode'.Between? ==> mode.Between? && output.None?
    ensures !done ==> Step(mode, cur, c) == (mode', if output.Some? then cur + [output.value] else cur)
  {
    assert mode.Between? ==> cur + [c] == [c];
    mode', output, done := mode, None, false;
    match mode {
      case Between =>
        if c == SPACE {
        } else if c == QUOTE {
          mode' := QuotedArg;
        } else if c == ESCAPE {
          mode' := ArgEscaped;
        } else {
          mode', output := Arg, Some(c);
        }
      case QuotedArg =>
        if c == QUOTE {
          mode', output, done := Between, Some(NUL), true;
        } else if c == ESCAPE {
          mode' := QuotedArgEscaped;
        } else {
          output := Some(c);
        }
      case ArgEscaped =>
        if Special(c) {
          output := Some(c);
        }
        mode' := Arg;
      case QuotedArgEscaped =>
        if Special(c) {
          output := Some(c);
        }
        mode' := QuotedArg;
      case Arg =>
        if c == SPACE {
          mode', output, done := Between, Some(NUL), true;
        } else if c == ESCAPE {
          mode' := ArgEscaped;
        } else {
          output := Some(c);
        }
    }
  }

  /** One character of the text, read off it and turned into progress. */
  lemma TokensStep(text: seq<byte>, i: nat, mode: Mode, args: seq<seq<byte>>, cur: seq<byte>, room: nat)
    requires i < |text| && room > 0
    ensures var c := text[i];
            args + Tokens(text[i..], mode, cur, room) ==
            if Ends(mode, c) then (args + [cur]) + Tokens(text[i + 1..], Between, [], room - 1)
            else args + Tokens(text[i + 1..], Step(mode, cur, c).0, Step(mode, cur, c).1, room)
  {
    assert text[i..][0] == text[i] && text[i..][1..] == text[i + 1..];
    var rest := Tokens(text[i + 1..], Between, [], room - 1);
    assert args + ([cur] + rest) == (args + [cur]) + rest;
  }

  lemma TokensEnd(text: seq<byte>, i: nat, mode: Mode, args: seq<seq<byte>>, cur: seq<byte>, room: nat)
    requires i <= |text| && (room > 0 ==> i == |text|) && (room == 0 ==> mode.Between?)
    ensures args + Tokens(text[i..], mode, cur, room) == if mode.Between? then args else args + [cur]
  {
  }

  /**
     The loop invariant, on values. `text` is the original text; its first i characters have been read. The
     line `mem` starts with the packed arguments and what there is of the current one, and still ends with
     the characters that are to be read.
   */
  ghost predicate At(text: seq<byte>, mem: seq<byte>, ptrs: seq<Option<nat>>, i: nat, out: nat, start: nat, argc: nat,
                     mode: Mode, args: seq<seq<byte>>, cur: seq<byte>) {
    && out <= i <= |text| < |mem| && argc == |args| < |ptrs|
    && mem[i..|text|] == text[i..]
    && mem[..out] == Pack(args) + cur
    && (if mode.Between? then cur == [] else start == |Pack(args)| && argc < |ptrs| - 1)
    && PointsAt(ptrs, args)
    && Tokens(text, Between, [], |ptrs| - 1) == args + Tokens(text[i..], mode, cur, |ptrs| - 1 - argc)
  }

  function Written(mem: seq<byte>, out: nat, output: Option<byte>): seq<byte>
    requires out < |mem|
  {
    if output.Some? then mem[out := output.value] else mem
  }

  /** A character that does not complete an argument. */
  lemma AtNext(text: seq<byte>, mem: seq<byte>, ptrs: seq<Option<nat>>, i: nat, out: nat, start: nat, argc: nat,
               mode: Mode, args: seq<seq<byte>>, cur: seq<byte>, mode': Mode, output: Option<byte>)
    requires At(text, mem, ptrs, i, out, start, argc, mode, args, cur)
    requires i < |text| && argc < |ptrs| - 1 && !Ends(mode, text[i])
    requires Step(mode, cur, text[i]) == (mode', if output.Some? then cur + [output.value] else cur)
    requires mode'.Between? ==> mode.Between? && output.None?
    ensures At(text, Written(mem, out, output), ptrs, i + 1, if output.Some? then out + 1 else out,
               if mode.Between? && !mode'.Between? then out else start, argc, mode', args,
               if output.Some? then cur + [output.value] else cur)
  {
    TokensStep(text, i, mode, args, cur, |ptrs| - 1 - argc);
    hide Tokens, Pack, PointsAt, Step, Ends;
    var mem' := Written(mem, out, output);
    assert mem'[i + 1..|text|] == mem[i..|text|][1..] == text[i..][1..] == text[i + 1..];
    if output.Some? {
      assert mem'[..out + 1] == mem[..out] + [output.value];
    }
  }

  /** A character that completes an argument. */
  lemma AtEnd(text: seq<byte>, mem: seq<byte>, ptrs: seq<Option<nat>>, i: nat, out: nat, start: nat, argc: nat,
              mode: Mode, args: seq<seq<byte>>, cur: seq<byte>)
    requires At(text, mem, ptrs, i, out, start, argc, mode, args, cur)
    requires i < |text| && Ends(mode, text[i])
    ensures argc < |ptrs| - 1
    ensures At(text, mem[out := NUL], ptrs[argc := Some(start)], i + 1, out + 1, start, argc + 1, Between, args + [cur], [])
  {
    TokensStep(text, i, mode, args, cur, |ptrs| - 1 - argc);
    PackOne(args, cur);
    PointOn(ptrs, args, cur);
    hide Tokens, Pack, PointsAt;
    var mem' := mem[out := NUL];
    assert mem'[i + 1..|text|] == mem[i..|text|][1..] == text[i..][1..] == text[i + 1..];
    assert mem'[..out + 1] == mem[..out] + [NUL];
  }

  /** What the call leaves behind: the n tokens of the text, packed, and pointers to them. */
  ghost predicate IsSplit(text: seq<byte>, mem: seq<byte>, ptrs: seq<Option<nat>>, n: nat)
    requires |ptrs| > 0
  {
    var all := Tokens(text, Between, [], |ptrs| - 1);
    n == |all| < |ptrs| && Pack(all) <= mem && PointsAt(ptrs, all)
  }

  lemma PointNull(ptrs: seq<Option<nat>>, args: seq<seq<byte>>)
    requires PointsAt(ptrs, args) && |args| < |ptrs|
    ensures PointsAt(ptrs[|args| := None], args)
  {
  }

  lemma PackedAll(mem: seq<byte>, out: nat, args: seq<seq<byte>>, cur: seq<byte>)
    requires out < |mem| && mem[..out] == Pack(args) + cur
    ensures cur == [] ==> Pack(args) <= mem[out := NUL]
    ensures Pack(args + [cur]) <= mem[out := NUL]
  {
    PackOne(args, cur);
    hide Pack;
    assert mem[out := NUL][..out] == mem[..out] && mem[out := NUL][..out + 1] == mem[..out] + [NUL];
  }

  /** Between two arguments there is nothing left to count. */
  lemma AtLastIdle(text: seq<byte>, mem: seq<byte>, ptrs: seq<Option<nat>>, i: nat, out: nat, start: nat, argc: nat,
                   args: seq<seq<byte>>)
    requires At(text, mem, ptrs, i, out, start, argc, Between, args, []) && (argc < |ptrs| - 1 ==> i == |text|)
    ensures IsSplit(text, mem[out := NUL], ptrs[argc := None], argc)
  {
    TokensEnd(text, i, Between, args, [], |ptrs| - 1 - argc);
    PackedAll(mem, out, args, []);
    PointNull(ptrs, args);
    hide Tokens, Pack, PointsAt;
  }

  /** An argument that is still open is counted. */
  lemma AtLastOpen(text: seq<byte>, mem: seq<byte>, ptrs: seq<Option<nat>>, i: nat, out: nat, start: nat, argc: nat,
                   mode: Mode, args: seq<seq<byte>>, cur: seq<byte>)
    requires At(text, mem, ptrs, i, out, start, argc, mode, args, cur) && (argc < |ptrs| - 1 ==> i == |text|)
    requires !mode.Between?
    ensures argc < |ptrs| - 1 && IsSplit(text, mem[out := NUL], ptrs[argc := Some(start)][argc + 1 := None], argc + 1)
  {
    TokensEnd(text, i, mode, args, cur, |ptrs| - 1 - argc);
    PackedAll(mem, out, args, cur);
    PointOn(ptrs, args, cur);
    PointNull(ptrs[argc := Some(start)], args + [cur]);
    hide Tokens, Pack, PointsAt;
  }

  /** The body of the loop: reads one character. */
  method ReadChar(line: array<byte>, argv: array<Option<nat>>, i: nat, out: nat, start: nat, argc: nat, mode: Mode,
                  ghost text: seq<byte>, ghost args: seq<seq<byte>>, ghost cur: seq<byte>)
    returns (out': nat, start': nat, argc': nat, mode': Mode, ghost args': seq<seq<byte>>, ghost cur': seq<byte>)
    requires At(text, line[..], argv[..], i, out, start, argc, mode, args, cur)
    requires i < |text| && argc < argv.Length - 1
    modifies line, argv
    ensures At(text, line[..], argv[..], i + 1, out', start', argc', mode', args', cur')
    ensures forall j | |text| <= j < line.Length :: line[j] == old(line[j])
  {
    hide Tokens, Step, Ends, Pack, PointsAt;
    ghost var mem, ptrs := line[..], argv[..];
    assert line[i] == mem[i] == mem[i..|text|][0] == text[i];
    var output, done;
    mode', output, done := Switch(mode, line[i], cur);
    out', start', argc', args', cur' := out, start, argc, args, cur;
    if done {
      AtEnd(text, mem, ptrs, i, out, start, argc, mode, args, cur);
      argv[argc], argc' := Some(start), argc + 1;
      args', cur' := args + [cur], [];
    } else {
      AtNext(text, mem, ptrs, i, out, start, argc, mode, args, cur, mode', output);
      if mode.Between? && !mode'.Between? {
        start' := out;
      }
      cur' := if output.Some? then cur + [output.value] else cur;
    }
    hide At;
    if output.Some? {
      line[out] := output.value;
      out' := out + 1;
    }
    assert line[..] == Written(mem, out, output);
    assert argv[..] == if done then ptrs[argc := Some(start)] else ptrs;
  }

  /** After the loop: terminates the final argument, counts it if it is still open, and ends argv with NULL. */
  method Finish(line: array<byte>, argv: array<Option<nat>>, i: nat, out: nat, start: nat, argc: nat, mode: Mode,
                ghost text: seq<byte>, ghost args: seq<seq<byte>>, ghost cur: seq<byte>) returns (argc': nat)
    requires At(text, line[..], argv[..], i, out, start, argc, mode, args, cur)
    requires argc < argv.Length - 1 ==> i == |text|
    modifies line, argv
    ensures argc' < argv.Length && IsSplit(text, line[..], argv[..], argc') && argv[argc'] == None
    ensures forall j | |text| < j < line.Length :: line[j] == old(line[j])
  {
    ghost var mem, ptrs := line[..], argv[..];
    if mode.Between? {
      AtLastIdle(text, mem, ptrs, i, out, start, argc, args);
    } else {
      AtLastOpen(text, mem, ptrs, i, out, start, argc, mode, args, cur);
    }
    hide Tokens, Pack, PointsAt, IsSplit;
    line[out] := NUL;
    argc' := argc;
    if !mode.Between? && argc < argv.Length - 1 {
      argv[argc], argc' := Some(start), argc + 1;
    }
    hide At;
    argv[argc'] := None;
    assert line[..] == mem[out := NUL];
    assert argv[..] == if mode.Between? then ptrs[argc' := None] else ptrs[argc := Some(start)][argc' := None];
  }

  /**
     esp_console_split_argv on a line whose text ends at the first NUL. Afterwards the line starts with the
     packed arguments, argv holds their positions and then NULL, and nothing behind the text has changed.
   */
  method Split(line: array<byte>, ghost length: nat, argv: array<Option<nat>>) returns (argc: nat)
    requires length < line.Length && line[length] == NUL && NoNul(line[..length])
    requires 1 <= argv.Length
    modifies line, argv
    ensures var args := Tokens(old(line[..length]), Between, [], argv.Length - 1);
            argc == |args| < argv.Length && Pack(args) <= line[..] && PointsAt(argv[..], args) && argv[argc] == None
    ensures forall j | length < j < line.Length :: line[j] == old(line[j])
  {
    ghost var text, args: seq<seq<byte>>, cur: seq<byte> := line[..length], [], [];
    var mode := Between;
    argc := 0;
    var start, out, i := 0, 0, 0;
    assert text[0..] == text && line[..][0..length] == text;
    while argc < argv.Length - 1 && line[i] != NUL
      invariant 0 <= i <= length && argc < argv.Length
      invariant forall j | length <= j < line.Length :: line[j] == old(line[j])
      invariant At(text, line[..], argv[..], i, out, start, argc, mode, args, cur)
      invariant i < length ==> line[i] == text[i]
      decreases length - i
    {
      hide At, Pack, PointsAt, Tokens;
      out, start, argc, mode, args, cur := ReadChar(line, argv, i, out, start, argc, mode, text, args, cur);
      i := i + 1;
    }
    argc := Finish(line, argv, i, out, start, argc, mode, text, args, cur);
  }

  // ---------------------------------------------------------------- the round trip in memory

  lemma {:induction false} EscapedNoNul(a: seq<byte>)
    requires NoNul(a)
    ensures NoNul(Escaped(a))
    decreases |a|
  {
    if a != [] {
      EscapedNoNul(a[1..]);
    }
  }

  ghost predicate AllNoNul(args: seq<seq<byte>>) {
    forall k | 0 <= k < |args| :: NoNul(args[k])
  }

  lemma {:induction false} QuotedNoNul(args: seq<seq<byte>>)
    requires AllNoNul(args)
    ensures NoNul(Quoted(args))
    decreases |args|
  {
    if args != [] {
      EscapedNoNul(args[0]);
      QuotedNoNul(args[1..]);
    }
  }

  /** The argument stands at p, followed by a NUL. */
  ghost predicate SegmentAt(mem: seq<byte>, p: nat, arg: seq<byte>) {
    p + |arg| < |mem| && mem[p..p + |arg|] == arg && mem[p + |arg|] == NUL
  }

  lemma PackedAt(args: seq<seq<byte>>, k: nat)
    requires k < |args|
    ensures SegmentAt(Pack(args), Start(args, k), args[k])
  {
    PackedSegment(args, k);
    hide Pack, Start;
  }

  lemma SegmentInPrefix(all: seq<byte>, mem: seq<byte>, p: nat, arg: seq<byte>)
    requires all <= mem && SegmentAt(all, p, arg)
    ensures SegmentAt(mem, p, arg)
  {
    assert mem[p..p + |arg|] == all[p..p + |arg|];
  }

  lemma PackedArgument(mem: seq<byte>, ptrs: seq<Option<nat>>, args: seq<seq<byte>>, k: nat)
    requires Pack(args) <= mem && PointsAt(ptrs, args) && k < |args|
    ensures ptrs[k].Some? && SegmentAt(mem, ptrs[k].value, args[k])
  {
    hide Pack, Start, SegmentAt;
    PackedAt(args, k);
    SegmentInPrefix(Pack(args), mem, Start(args, k), args[k]);
  }

  /** Splitting the line that quotes any NUL-free arguments, if argv has room for them, leaves them in argv. */
  method SplitQuoted(line: array<byte>, ghost args: seq<seq<byte>>, argv: array<Option<nat>>) returns (argc: nat)
    requires AllNoNul(args) && |args| < argv.Length
    requires Quoted(args) + [NUL] <= line[..]
    modifies line, argv
    ensures argc == |args| && argv[argc] == None
    ensures forall k | 0 <= k < argc :: argv[k].Some? && SegmentAt(line[..], argv[k].value, args[k])
  {
    ghost var text := Quoted(args);
    QuotedNoNul(args);
    QuoteThenSplit(args, argv.Length - 1);
    assert line[..|text|] == line[..][..|text|] == text && line[|text|] == line[..][|text|] == NUL;
    hide Quoted, Tokens, Pack, Start, SegmentAt;
    argc := Split(line, |text|, argv);
    forall k | 0 <= k < |args| ensures argv[k].Some? && SegmentAt(line[..], argv[k].value, args[k]) {
      PackedArgument(line[..], argv[..], args, k);
    }
  }

  // ---------------------------------------------------------------- every way to spell arguments

  /** A character of an argument as it is spelled, behind a backslash or not. */
  datatype Piece = Piece(c: byte, escaped: bool)

  /** An argument in quotes may be closed. At the end of the line it may be open, or end in a lone backslash. */
  datatype Ending = Closed | Open | Dangling

  /** An argument as it is spelled, between quotes or not, and the number of spaces behind it. */
  datatype Word = Word(quoted: bool, pieces: seq<Piece>, ending: Ending, gap: nat)

  function Spaces(n: nat): (s: seq<byte>)
    ensures |s| == n
  {
    if n == 0 then [] else [SPACE] + Spaces(n - 1)
  }

  function PieceText(p: Piece): seq<byte> {
    if p.escaped then [ESCAPE, p.c] else [p.c]
  }

  /** Backslash, quote and space can be escaped; an unrecognised escape stands for nothing. */
  function PieceValue(p: Piece): seq<byte> {
    if p.escaped && p.c != ESCAPE && p.c != QUOTE && p.c != SPACE then [] else [p.c]
  }

  function PiecesText(ps: seq<Piece>): seq<byte> {
    if ps == [] then [] else PieceText(ps[0]) + PiecesText(ps[1..])
  }

  function PiecesValue(ps: seq<Piece>): seq<byte> {
    if ps == [] then [] else PieceValue(ps[0]) + PiecesValue(ps[1..])
  }

  function WordText(w: Word): seq<byte> {
    (if w.quoted then [QUOTE] else []) + (PiecesText(w.pieces) + (EndingText(w.ending) + Spaces(w.gap)))
  }

  function EndingText(e: Ending): seq<byte> {
    match e
    case Closed => [QUOTE]
    case Open => []
    case Dangling => [ESCAPE]
  }

  function LineText(ws: seq<Word>): seq<byte> {
    if ws == [] then [] else WordText(ws[0]) + LineText(ws[1..])
  }

  /** What the words stand for. */
  function Values(ws: seq<Word>): (args: seq<seq<byte>>)
    ensures |args| == |ws| && forall k | 0 <= k < |ws| :: args[k] == PiecesValue(ws[k].pieces)
  {
    seq(|ws|, k requires 0 <= k < |ws| => PiecesValue(ws[k].pieces))
  }

  /** A character that is not escaped does not end the argument, nor starts an escape. */
  predicate LegalPiece(p: Piece, quoted: bool) {
    p.escaped || (p.c != ESCAPE && p.c != if quoted then QUOTE else SPACE)
  }

  /**
     An argument without quotes has a character, does not start with a quote, and has a space behind it or ends the
     line.
   */
  predicate LegalWord(w: Word, last: bool) {
    && (forall k | 0 <= k < |w.pieces| :: LegalPiece(w.pieces[k], w.quoted))
    && (w.ending.Dangling? || (w.quoted && w.ending.Open?) ==> last && w.gap == 0)
    && (!w.quoted ==>
          && !w.ending.Closed? && (w.gap > 0 || last)
          && if w.pieces == [] then w.ending.Dangling? else w.pieces[0].escaped || w.pieces[0].c != QUOTE)
  }

  predicate LegalLine(ws: seq<Word>) {
    forall k | 0 <= k < |ws| :: LegalWord(ws[k], k == |ws| - 1)
  }

  lemma {:induction false} SpacesSkipped(n: nat, rest: seq<byte>, room: nat)
    ensures Tokens(Spaces(n) + rest, Between, [], room) == Tokens(rest, Between, [], room)
    decreases n
  {
    if n == 0 {
      assert Spaces(0) + rest == rest;
    } else if room > 0 {
      assert Spaces(n) + rest == [SPACE] + (Spaces(n - 1) + rest);
      TokensCons(SPACE, Spaces(n - 1) + rest, Between, [], room);
      SpacesSkipped(n - 1, rest, room);
    }
  }

  lemma PieceRead(p: Piece, quoted: bool, cur: seq<byte>, rest: seq<byte>, room: nat)
    requires room > 0 && LegalPiece(p, quoted)
    ensures var mode := if quoted then QuotedArg else Arg;
            Tokens(PieceText(p) + rest, mode, cur, room) == Tokens(rest, mode, cur + PieceValue(p), room)
  {
    var mode := if quoted then QuotedArg else Arg;
    if p.escaped {
      assert PieceText(p) + rest == [ESCAPE] + ([p.c] + rest);
      TokensCons(ESCAPE, [p.c] + rest, mode, cur, room);
      TokensCons(p.c, rest, if quoted then QuotedArgEscaped else ArgEscaped, cur, room);
      assert cur + [] == cur;
    } else {
      TokensCons(p.c, rest, mode, cur, room);
    }
  }

  lemma NoSpaces(n: nat)
    ensures n == 0 ==> Spaces(n) == []
  {
  }

  lemma Regroup(a: seq<byte>, b: seq<byte>, c: seq<byte>)
    ensures (a + b) + c == a + (b + c)
  {
  }

  lemma {:induction false} PiecesRead(ps: seq<Piece>, quoted: bool, cur: seq<byte>, rest: seq<byte>, room: nat)
    requires room > 0 && forall k | 0 <= k < |ps| :: LegalPiece(ps[k], quoted)
    ensures var mode := if quoted then QuotedArg else Arg;
            Tokens(PiecesText(ps) + rest, mode, cur, room) == Tokens(rest, mode, cur + PiecesValue(ps), room)
    decreases |ps|
  {
    hide Tokens, PieceText, PieceValue, LegalPiece;
    if ps == [] {
      assert PiecesText(ps) + rest == rest && cur + PiecesValue(ps) == cur;
    } else {
      Regroup(PieceText(ps[0]), PiecesText(ps[1..]), rest);
      Regroup(cur, PieceValue(ps[0]), PiecesValue(ps[1..]));
      PieceRead(ps[0], quoted, cur, PiecesText(ps[1..]) + rest, room);
      PiecesRead(ps[1..], quoted, cur + PieceValue(ps[0]), rest, room);
    }
  }

  /** The first character of an argument without quotes. */
  lemma FirstPieceRead(p: Piece, rest: seq<byte>, room: nat)
    requires room > 0 && LegalPiece(p, false) && (p.escaped || p.c != QUOTE)
    ensures Tokens(PieceText(p) + rest, Between, [], room) == Tokens(rest, Arg, PieceValue(p), room)
  {
    if p.escaped {
      assert PieceText(p) + rest == [ESCAPE] + ([p.c] + rest);
      TokensCons(ESCAPE, [p.c] + rest, Between, [], room);
      TokensCons(p.c, rest, ArgEscaped, [], room);
      assert [] + [p.c] == [p.c];
    } else {
      TokensCons(p.c, rest, Between, [], room);
    }
  }

  lemma TokensEndArg(c: byte, rest: seq<byte>, mode: Mode, cur: seq<byte>, room: nat)
    requires room > 0 && Ends(mode, c)
    ensures Tokens([c] + rest, mode, cur, room) == [cur] + Tokens(rest, Between, [], room - 1)
  {
    assert ([c] + rest)[1..] == rest;
  }

  /** The pieces of an argument without quotes. */
  lemma PlainPiecesRead(ps: seq<Piece>, rest: seq<byte>, room: nat)
    requires room > 0 && ps != [] && (ps[0].escaped || ps[0].c != QUOTE)
    requires forall k | 0 <= k < |ps| :: LegalPiece(ps[k], false)
    ensures Tokens(PiecesText(ps) + rest, Between, [], room) == Tokens(rest, Arg, PiecesValue(ps), room)
  {
    hide Tokens, PieceText, PieceValue, LegalPiece;
    Regroup(PieceText(ps[0]), PiecesText(ps[1..]), rest);
    FirstPieceRead(ps[0], PiecesText(ps[1..]) + rest, room);
    PiecesRead(ps[1..], false, PieceValue(ps[0]), rest, room);
  }

  lemma GapRead(gap: nat, cur: seq<byte>, rest: seq<byte>, room: nat)
    requires room > 0 && (gap == 0 ==> rest == [])
    ensures Tokens(Spaces(gap) + rest, Arg, cur, room) == [cur] + Tokens(rest, Between, [], room - 1)
  {
    hide Tokens;
    if gap > 0 {
      Regroup([SPACE], Spaces(gap - 1), rest);
      TokensEndArg(SPACE, Spaces(gap - 1) + rest, Arg, cur, room);
      SpacesSkipped(gap - 1, rest, room - 1);
    } else {
      assert Spaces(0) + rest == [];
      NothingLeft(Arg, cur, room);
      NothingLeft(Between, [], room - 1);
    }
  }

  /** A lone backslash at the end of the line. */
  lemma DanglingRead(mode: Mode, cur: seq<byte>, room: nat)
    requires room > 0 && (mode.Arg? || mode.QuotedArg? || (mode.Between? && cur == []))
    ensures Tokens([ESCAPE], mode, cur, room) == [cur]
  {
    assert [ESCAPE] + [] == [ESCAPE];
    TokensCons(ESCAPE, [], mode, cur, room);
  }

  lemma PlainWordRead(w: Word, rest: seq<byte>, room: nat)
    requires room > 0 && !w.quoted && LegalWord(w, rest == [])
    ensures Tokens(WordText(w) + rest, Between, [], room) == [PiecesValue(w.pieces)] + Tokens(rest, Between, [], room - 1)
  {
    var value, after := PiecesValue(w.pieces), EndingText(w.ending) + Spaces(w.gap) + rest;
    assert WordText(w) + rest == PiecesText(w.pieces) + after;
    hide Tokens;
    if w.pieces != [] {
      PlainPiecesRead(w.pieces, after, room);
    } else {
      assert PiecesText(w.pieces) + after == after;
    }
    if w.ending.Dangling? {
      assert after == [ESCAPE];
      DanglingRead(if w.pieces == [] then Between else Arg, value, room);
      NothingLeft(Between, [], room - 1);
    } else {
      assert after == Spaces(w.gap) + rest;
      GapRead(w.gap, value, rest, room);
    }
  }

  lemma NothingLeft(mode: Mode, cur: seq<byte>, room: nat)
    ensures Tokens([], mode, cur, room) == if room == 0 || mode.Between? then [] else [cur]
  {
  }

  lemma QuotedWordRead(w: Word, rest: seq<byte>, room: nat)
    requires room > 0 && w.quoted && LegalWord(w, rest == [])
    ensures Tokens(WordText(w) + rest, Between, [], room) == [PiecesValue(w.pieces)] + Tokens(rest, Between, [], room - 1)
  {
    var value, after := PiecesValue(w.pieces), EndingText(w.ending) + Spaces(w.gap) + rest;
    hide Tokens, PiecesText, PiecesValue, Spaces, LegalPiece;
    WordGroups([QUOTE], PiecesText(w.pieces), EndingText(w.ending), Spaces(w.gap), rest);
    Regroup(EndingText(w.ending), Spaces(w.gap), rest);
    assert WordText(w) + rest == [QUOTE] + (PiecesText(w.pieces) + after);
    TokensCons(QUOTE, PiecesText(w.pieces) + after, Between, [], room);
    PiecesRead(w.pieces, true, [], after, room);
    assert [] + value == value;
    if w.ending.Closed? {
      assert after == [QUOTE] + (Spaces(w.gap) + rest);
      TokensEndArg(QUOTE, Spaces(w.gap) + rest, QuotedArg, value, room);
      SpacesSkipped(w.gap, rest, room - 1);
    } else {
      NoSpaces(w.gap);
      assert after == EndingText(w.ending);
      NothingLeft(QuotedArg, value, room);
      NothingLeft(Between, [], room - 1);
      if w.ending.Dangling? {
        DanglingRead(QuotedArg, value, room);
      }
    }
  }

  lemma {:induction false} WordsRead(ws: seq<Word>, room: nat)
    requires LegalLine(ws) && |ws| <= room
    ensures Tokens(LineText(ws), Between, [], room) == Values(ws)
    decreases |ws|
  {
    hide Tokens, WordText, LegalWord, LegalLine, PiecesValue;
    if ws == [] {
      NothingLeft(Between, [], room);
    } else {
      var w, rest := ws[0], LineText(ws[1..]);
      LegalRest(ws);
      WordsRead(ws[1..], room - 1);
      if w.quoted {
        QuotedWordRead(w, rest, room);
      } else {
        PlainWordRead(w, rest, room);
      }
      assert Values(ws) == [PiecesValue(w.pieces)] + Values(ws[1..]);
    }
  }

  lemma LegalRest(ws: seq<Word>)
    requires LegalLine(ws) && ws != []
    ensures LegalLine(ws[1..]) && LegalWord(ws[0], LineText(ws[1..]) == [])
  {
    var rest := ws[1..];
    hide LegalWord, LineText;
    assert LegalWord(ws[0], 0 == |ws| - 1);
    forall k | 0 <= k < |rest| ensures LegalWord(rest[k], k == |rest| - 1) {
      assert rest[k] == ws[k + 1];
    }
    if rest != [] {
      LineNotEmpty(rest);
    } else {
      NoText();
    }
  }

  lemma NoText()
    ensures LineText([]) == [] && LegalLine([])
  {
  }

  lemma LineNotEmpty(ws: seq<Word>)
    requires LegalLine(ws) && ws != []
    ensures LineText(ws) != []
  {
    assert LegalWord(ws[0], 0 == |ws| - 1);
    if !ws[0].quoted && ws[0].pieces != [] {
      assert PieceText(ws[0].pieces[0]) != [];
    }
  }

  /**
     However the arguments are spelled, with any number of spaces before, between and after them, the splitter reads
     them back.
   */
  lemma SpelledLine(lead: nat, ws: seq<Word>, room: nat)
    requires LegalLine(ws) && |ws| <= room
    ensures Tokens(Spaces(lead) + LineText(ws), Between, [], room) == Values(ws)
  {
    SpacesSkipped(lead, LineText(ws), room);
    WordsRead(ws, room);
  }

  lemma {:induction false} SpellSpaces(s: seq<byte>) returns (n: nat)
    ensures n <= |s| && s == Spaces(n) + s[n..] && (n < |s| ==> s[n] != SPACE) && (s != [] && s[0] == SPACE ==> n > 0)
    decreases |s|
  {
    n := 0;
    if s != [] && s[0] == SPACE {
      n := SpellSpaces(s[1..]);
      n := n + 1;
      assert s == [SPACE] + s[1..] && s[1..][n - 1..] == s[n..];
    }
  }

  /** The characters of an argument up to its end: the closing character, the end of the line or a lone backslash there. */
  lemma {:induction false} SpellPieces(s: seq<byte>, quoted: bool) returns (ps: seq<Piece>, k: nat)
    ensures k <= |s| && s == PiecesText(ps) + s[k..] && forall i | 0 <= i < |ps| :: LegalPiece(ps[i], quoted)
    ensures s[k..] == [] || s[k..] == [ESCAPE] || s[k] == if quoted then QUOTE else SPACE
    ensures ps == [] <==> k == 0
    ensures ps != [] ==> ps[0].escaped || ps[0].c == s[0]
    decreases |s|
  {
    ps, k := [], 0;
    if s != [] && s != [ESCAPE] && s[0] != if quoted then QUOTE else SPACE {
      var p, n := if s[0] == ESCAPE then Piece(s[1], true) else Piece(s[0], false), if s[0] == ESCAPE then 2 else 1;
      assert s == PieceText(p) + s[n..];
      var more, m := SpellPieces(s[n..], quoted);
      ps, k := [p] + more, n + m;
      assert ps[1..] == more && s[n..][m..] == s[k..];
      hide PieceText, PiecesText, LegalPiece;
      Regroup(PieceText(p), PiecesText(more), s[k..]);
    }
  }

  lemma LegalCons(w: Word, ws: seq<Word>)
    requires LegalWord(w, ws == []) && LegalLine(ws)
    ensures LegalLine([w] + ws) && LineText([w] + ws) == WordText(w) + LineText(ws)
  {
    var line := [w] + ws;
    hide LegalWord, WordText;
    assert line[1..] == ws;
    forall k | 0 <= k < |line| ensures LegalWord(line[k], k == |line| - 1) {
      if k > 0 {
        assert line[k] == ws[k - 1] && LegalWord(ws[k - 1], k - 1 == |ws| - 1);
      }
    }
  }

  /** What stands behind the characters of an argument. */
  lemma SpellEnding(tail: seq<byte>, quoted: bool) returns (ending: Ending, gap: nat, n: nat)
    requires tail == [] || tail == [ESCAPE] || tail[0] == if quoted then QUOTE else SPACE
    ensures n <= |tail| && tail == EndingText(ending) + (Spaces(gap) + tail[n..]) && (n < |tail| ==> tail[n] != SPACE)
    ensures ending.Dangling? || (quoted && ending.Open?) ==> n == |tail| && gap == 0
    ensures !quoted ==> !ending.Closed? && (gap > 0 || n == |tail|)
    ensures (tail == [] ==> ending.Open?) && (tail == [ESCAPE] ==> ending.Dangling?) && (tail != [] ==> n > 0)
  {
    if tail == [] || tail == [ESCAPE] {
      ending, gap, n := if tail == [] then Open else Dangling, 0, |tail|;
    } else if quoted {
      ending := Closed;
      gap := SpellSpaces(tail[1..]);
      n := 1 + gap;
      assert tail == [QUOTE] + tail[1..] && tail[1..][gap..] == tail[n..];
    } else {
      ending := Open;
      gap := SpellSpaces(tail);
      n := gap;
    }
  }

  /** The first argument of a line, behind the quote if there is one, and where the next argument starts. */
  lemma SpellBody(s: seq<byte>, quoted: bool) returns (w: Word, n: nat)
    requires !quoted ==> s != [] && s[0] != SPACE && s[0] != QUOTE
    ensures w.quoted == quoted && n <= |s| && (n < |s| ==> s[n] != SPACE) && (n == 0 ==> quoted)
    ensures s == PiecesText(w.pieces) + (EndingText(w.ending) + (Spaces(w.gap) + s[n..]))
    ensures LegalWord(w, n == |s|)
  {
    hide PiecesText, EndingText, Spaces, LegalPiece;
    var ps, k := SpellPieces(s, quoted);
    var ending, gap, m := SpellEnding(s[k..], quoted);
    w, n := Word(quoted, ps, ending, gap), k + m;
    assert s[k..][m..] == s[n..];
    if ps == [] {
      assert s[k..] == s;
    }
  }

  /** The first argument of a line, and where the next one starts. */
  lemma SpellWord(s: seq<byte>) returns (w: Word, n: nat)
    requires s != [] && s[0] != SPACE
    ensures 0 < n <= |s| && s == WordText(w) + s[n..] && (n < |s| ==> s[n] != SPACE) && LegalWord(w, n == |s|)
  {
    hide PiecesText, EndingText, Spaces, LegalWord;
    var open := if s[0] == QUOTE then [QUOTE] else [];
    var m;
    w, m := SpellBody(s[|open|..], s[0] == QUOTE);
    n := |open| + m;
    assert s[|open|..][m..] == s[n..] && s == open + s[|open|..];
    WordGroups(open, PiecesText(w.pieces), EndingText(w.ending), Spaces(w.gap), s[n..]);
  }

  lemma WordGroups(a: seq<byte>, b: seq<byte>, c: seq<byte>, d: seq<byte>, e: seq<byte>)
    ensures a + (b + (c + (d + e))) == (a + (b + (c + d))) + e
  {
    Regroup(c, d, e);
    Regroup(b, c + d, e);
    Regroup(a, b + (c + d), e);
  }

  /** Every line is spelled in this way. */
  lemma {:induction false} SpellWords(s: seq<byte>) returns (ws: seq<Word>)
    requires s != [] ==> s[0] != SPACE
    ensures LegalLine(ws) && s == LineText(ws)
    decreases |s|
  {
    hide LegalLine, LegalWord, WordText, LineText;
    ws := [];
    if s == [] {
      NoText();
    } else {
      var w, n := SpellWord(s);
      var more := SpellWords(s[n..]);
      if more == [] {
        NoText();
      } else {
        LineNotEmpty(more);
      }
      LegalCons(w, more);
      ws := [w] + more;
    }
  }

  /**
     So this is what the splitter makes of any line: it is spelled in some such way, and the arguments are what the
     words stand for, as many as there is room for.
   */
  lemma EveryLine(s: seq<byte>, room: nat) returns (lead: nat, ws: seq<Word>)
    ensures LegalLine(ws) && s == Spaces(lead) + LineText(ws)
    ensures Tokens(s, Between, [], room) == Values(ws)[..Min(room, |ws|)]
  {
    hide LegalLine, Tokens, Values, LineText;
    lead := SpellSpaces(s);
    ws := SpellWords(s[lead..]);
    SpelledLine(lead, ws, room + |ws|);
    RoomTruncates(s, Between, [], room, room + |ws|);
  }

  /** In memory: each argument stands at its pointer, followed by a NUL. */
  method SplitSpelled(line: array<byte>, ghost lead: nat, ghost ws: seq<Word>, argv: array<Option<nat>>) returns (argc: nat)
    requires LegalLine(ws) && |ws| < argv.Length
    requires NoNul(LineText(ws)) && Spaces(lead) + LineText(ws) + [NUL] <= line[..]
    modifies line, argv
    ensures argc == |ws| && argv[argc] == None
    ensures forall k | 0 <= k < argc :: argv[k].Some? && SegmentAt(line[..], argv[k].value, PiecesValue(ws[k].pieces))
  {
    ghost var text, args := Spaces(lead) + LineText(ws), Values(ws);
    SpacesNoNul(lead);
    SpelledLine(lead, ws, argv.Length - 1);
    assert line[..|text|] == line[..][..|text|] == text && line[|text|] == line[..][|text|] == NUL;
    hide LineText, Tokens, Pack, Start, SegmentAt, LegalLine, Spaces;
    argc := Split(line, |text|, argv);
    forall k | 0 <= k < |args| ensures argv[k].Some? && SegmentAt(line[..], argv[k].value, args[k]) {
      PackedArgument(line[..], argv[..], args, k);
    }
  }

  lemma {:induction false} SpacesNoNul(n: nat)
    ensures NoNul(Spaces(n))
    decreases n
  {
    if n > 0 {
      SpacesNoNul(n - 1);
    }
  }
}
