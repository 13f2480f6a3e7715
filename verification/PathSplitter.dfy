/**
 The exhaustive path splitter of tools/split_paths_by_spaces.py: a list of paths separated by spaces, which may
 also contain spaces, is taken apart by trying every way to do it. Whether a path exists is a parameter.
 */
module PathSplitter {
  import opened Common

  // ---------------------------------------------------------------- strings

  /** `' '.join(parts)` */
  function Join(parts: seq<string>): string {
    if parts == [] then ""
    else if |parts| == 1 then parts[0]
    else parts[0] + " " + Join(parts[1..])
  }

  function FirstSpace(s: string): (k: nat)
    ensures k <= |s| && ' ' !in s[..k]
    ensures k < |s| ==> s[k] == ' '
  {
    if s == "" || s[0] == ' ' then 0 else 1 + FirstSpace(s[1..])
  }

  predicate Spaceless(parts: seq<string>) {
    forall i | 0 <= i < |parts| :: ' ' !in parts[i]
  }

  /** `s.split(' ')` */
  function Words(s: string): (parts: seq<string>)
    ensures parts != [] && Spaceless(parts) && Join(parts) == s
    decreases |s|
  {
    var k := FirstSpace(s);
    if k == |s| then [s] else
      assert s == s[..k] + " " + s[k + 1..];
      JoinCons(s[..k], Words(s[k + 1..]));
      [s[..k]] + Words(s[k + 1..])
  }

  lemma JoinCons(part: string, rest: seq<string>)
    requires rest != []
    ensures Join([part] + rest) == part + " " + Join(rest)
  {
    assert ([part] + rest)[1..] == rest;
  }

  /** `s.lstrip(' ')` */
  function StripLeft(s: string): string {
    if s != "" && s[0] == ' ' then StripLeft(s[1..]) else s
  }

  /** `s.rstrip(' ')` */
  function StripRight(s: string): string {
    if s != "" && s[|s| - 1] == ' ' then StripRight(s[..|s| - 1]) else s
  }

  /** No space at either end. */
  predicate Trimmed(s: string) {
    s != "" ==> s[0] != ' ' && s[|s| - 1] != ' '
  }

  lemma {:induction false} StripLeftShortens(s: string)
    ensures |StripLeft(s)| <= |s| && (StripLeft(s) == "" || StripLeft(s)[0] != ' ')
    ensures s == "" || s[0] != ' ' ==> StripLeft(s) == s
    ensures s != "" && s[0] == ' ' ==> |StripLeft(s)| < |s|
    ensures StripLeft(s) != "" ==> s != "" && StripLeft(s)[|StripLeft(s)| - 1] == s[|s| - 1]
    decreases |s|
  {
    if s != "" && s[0] == ' ' {
      StripLeftShortens(s[1..]);
    }
  }

  lemma {:induction false} StripRightShortens(s: string)
    ensures |StripRight(s)| <= |s| && StripRight(s) <= s
    ensures StripRight(s) == "" || StripRight(s)[|StripRight(s)| - 1] != ' '
    ensures s == "" || s[|s| - 1] != ' ' ==> StripRight(s) == s
    ensures s != "" && s[|s| - 1] == ' ' ==> |StripRight(s)| < |s|
    decreases |s|
  {
    if s != "" && s[|s| - 1] == ' ' {
      StripRightShortens(s[..|s| - 1]);
    }
  }

  /** Stripping leaves a trimmed string alone, makes any other one shorter, and leaves it trimmed. */
  lemma StripTrims(s: string)
    ensures var t := StripRight(StripLeft(s));
            Trimmed(t) && if Trimmed(s) then t == s else |t| < |s|
  {
    StripLeftShortens(s);
    StripRightShortens(StripLeft(s));
  }

  /** The part from i to j has no space at its ends, and all around it are spaces. */
  predicate TrimmedPart(s: string, i: nat, j: nat) {
    && i <= j <= |s| && Trimmed(s[i..j])
    && (forall k | 0 <= k < i :: s[k] == ' ') && forall k | j <= k < |s| :: s[k] == ' '
  }

  lemma {:induction false} LeftIs(s: string) returns (i: nat)
    ensures i <= |s| && StripLeft(s) == s[i..] && forall k | 0 <= k < i :: s[k] == ' '
    decreases |s|
  {
    i := 0;
    if s != "" && s[0] == ' ' {
      i := LeftIs(s[1..]);
      i := i + 1;
      assert forall k | 0 < k < i :: s[k] == s[1..][k - 1];
    }
  }

  lemma {:induction false} RightIs(s: string) returns (j: nat)
    ensures j <= |s| && StripRight(s) == s[..j] && forall k | j <= k < |s| :: s[k] == ' '
    decreases |s|
  {
    j := |s|;
    if s != "" && s[|s| - 1] == ' ' {
      j := RightIs(s[..|s| - 1]);
      assert forall k | j <= k < |s| - 1 :: s[k] == s[..|s| - 1][k];
    }
  }

  /** Stripping takes off spaces only. */
  lemma StripIs(s: string) returns (i: nat, j: nat)
    ensures TrimmedPart(s, i, j) && StripRight(StripLeft(s)) == s[i..j]
  {
    StripTrims(s);
    i := LeftIs(s);
    var n := RightIs(StripLeft(s));
    j := i + n;
    assert s[i..][..n] == s[i..j];
    assert forall k | j <= k < |s| :: s[k] == s[i..][k - i];
  }

  lemma FirstPart(parts: seq<string>)
    requires parts != []
    ensures parts[0] <= Join(parts)
    ensures |parts| == 1 ==> Join(parts) == parts[0]
    ensures |parts| > 1 ==>
              var k := |parts[0]|;
              k < |Join(parts)| && Join(parts)[k] == ' ' && Join(parts)[k + 1..] == Join(parts[1..])
  {
  }

  // ---------------------------------------------------------------- one way to split

  /** The first two parts as one. */
  function Merged(parts: seq<string>): (m: seq<string>)
    requires |parts| > 1
    ensures |m| == |parts| - 1
  {
    [parts[0] + " " + parts[1]] + parts[2..]
  }

  /** Splits at the spaces whose bit is set in n. */
  function SelectiveJoin(parts: seq<string>, n: nat): (r: seq<string>)
    requires parts != []
    ensures r != []
    decreases |parts|
  {
    if |parts| == 1 then parts
    else if n % 2 == 1 then [parts[0]] + SelectiveJoin(parts[1..], n / 2)
    else SelectiveJoin(Merged(parts), n / 2)
  }

  /** Bit i of n. */
  predicate Bit(n: nat, i: nat) {
    n / Pow2(i) % 2 == 1
  }

  lemma BitOfHalf(n: nat, i: nat)
    requires i > 0
    ensures Bit(n, i) <==> Bit(n / 2, i - 1)
  {
    var p := Pow2(i - 1);
    var q, r := n / 2 / p, n / 2 % p;
    assert n == (2 * p) * q + (2 * r + n % 2);
    DivIs(n, 2 * p, q, 2 * r + n % 2);
  }

  /** The last string of the list goes on with a space and w. */
  function Extended(list: seq<string>, w: string): seq<string>
    requires list != []
  {
    list[..|list| - 1] + [list[|list| - 1] + " " + w]
  }

  /** What a bit means: string i + 1 starts a new part if bit i of n is set, and is joined to string i if not. */
  lemma {:induction false} BitSplits(parts: seq<string>, w: string, n: nat)
    requires parts != []
    ensures SelectiveJoin(parts + [w], n) ==
            if Bit(n, |parts| - 1) then SelectiveJoin(parts, n) + [w] else Extended(SelectiveJoin(parts, n), w)
    decreases |parts|
  {
    hide Bit, Extended, Merged, Pow2;
    var more := parts + [w];
    if |parts| == 1 {
      BitZero(n);
      ExtendedOne(parts[0], w);
      assert more[1..] == [w] && more == [parts[0], w] && parts == [parts[0]];
    } else {
      BitOfHalf(n, |parts| - 1);
      assert more[1..] == parts[1..] + [w];
      if n % 2 == 1 {
        BitSplits(parts[1..], w, n / 2);
        ExtendedCons(parts[0], SelectiveJoin(parts[1..], n / 2), w);
      } else {
        MergedAppend(parts, w);
        BitSplits(Merged(parts), w, n / 2);
      }
    }
  }

  lemma BitZero(n: nat)
    ensures Bit(n, 0) <==> n % 2 == 1
  {
    assert Pow2(0) == 1 && n / 1 == n;
  }

  lemma ExtendedOne(p: string, w: string)
    ensures Extended([p], w) == [p + " " + w] == Merged([p, w])
  {
  }

  lemma ExtendedCons(p: string, list: seq<string>, w: string)
    requires list != []
    ensures Extended([p] + list, w) == [p] + Extended(list, w)
  {
  }

  lemma MergedAppend(parts: seq<string>, w: string)
    requires |parts| > 1
    ensures Merged(parts + [w]) == Merged(parts) + [w]
  {
  }

  lemma {:induction false} JoinMerged(parts: seq<string>)
    requires |parts| > 1
    ensures Join(Merged(parts)) == Join(parts)
  {
    var m := Merged(parts);
    if |parts| > 2 {
      assert m[1..] == parts[1..][1..];
    }
  }

  lemma {:induction false} JoinAppend(parts: seq<string>, part: string)
    requires parts != []
    ensures Join(parts + [part]) == Join(parts) + " " + part
    decreases |parts|
  {
    assert (parts + [part])[1..] == parts[1..] + [part];
    if |parts| > 1 {
      JoinAppend(parts[1..], part);
    }
  }

  /** Every selection joins to the same string. */
  lemma {:induction false} SelectionJoins(parts: seq<string>, n: nat)
    requires parts != []
    ensures Join(SelectiveJoin(parts, n)) == Join(parts)
    decreases |parts|
  {
    if |parts| > 1 {
      if n % 2 == 1 {
        SelectionJoins(parts[1..], n / 2);
        assert SelectiveJoin(parts, n)[1..] == SelectiveJoin(parts[1..], n / 2);
      } else {
        SelectionJoins(Merged(parts), n / 2);
        JoinMerged(parts);
      }
    }
  }

  lemma {:induction false} FirstSelected(parts: seq<string>, n: nat)
    requires parts != []
    ensures |SelectiveJoin(parts, n)[0]| >= |parts[0]|
    ensures |parts| > 1 && n % 2 == 0 ==> |SelectiveJoin(parts, n)[0]| > |parts[0]|
    decreases |parts|
  {
    if |parts| > 1 && n % 2 == 0 {
      FirstSelected(Merged(parts), n / 2);
    }
  }

  /** Different numbers select different lists. */
  lemma {:induction false} SelectionsDiffer(parts: seq<string>, n: nat, m: nat)
    requires parts != [] && n < Pow2(|parts| - 1) && m < Pow2(|parts| - 1)
    ensures SelectiveJoin(parts, n) == SelectiveJoin(parts, m) ==> n == m
    decreases |parts|
  {
    if |parts| > 1 && SelectiveJoin(parts, n) == SelectiveJoin(parts, m) {
      FirstSelected(parts, n);
      FirstSelected(parts, m);
      assert n % 2 == m % 2;
      if n % 2 == 1 {
        assert SelectiveJoin(parts, n)[1..] == SelectiveJoin(parts[1..], n / 2);
        assert SelectiveJoin(parts, m)[1..] == SelectiveJoin(parts[1..], m / 2);
        SelectionsDiffer(parts[1..], n / 2, m / 2);
      } else {
        SelectionsDiffer(Merged(parts), n / 2, m / 2);
      }
    }
  }

  /** The first of the words that make the end of a string cannot be cut by another way to split it. */
  lemma WordIsWhole(words: seq<string>, front: string, list: seq<string>)
    requires words != [] && list != [] && ' ' !in words[0]
    requires Join(list) == front + Join(words)
    requires |front| <= |list[0]|
    ensures |front| + |words[0]| <= |list[0]|
  {
    FirstPart(words);
    FirstPart(list);
    forall k | |front| <= k < |front| + |words[0]| ensures Join(list)[k] != ' ' {
      assert Join(list)[k] == Join(words)[k - |front|] == words[0][k - |front|];
    }
  }

  lemma SelectLast(parts: seq<string>, n: nat)
    requires |parts| == 1
    ensures SelectiveJoin(parts, n) == parts
  {
  }

  lemma SpacelessTails(parts: seq<string>)
    requires |parts| > 1 && Spaceless(parts[1..])
    ensures Spaceless(parts[1..][1..]) && Spaceless(Merged(parts)[1..]) && ' ' !in parts[1]
    ensures |Merged(parts)[0]| == |parts[0]| + 1 + |parts[1]|
  {
    assert parts[1] == parts[1..][0];
    assert Merged(parts)[1..] == parts[1..][1..];
  }

  lemma SelectNext(parts: seq<string>, m: nat)
    requires |parts| > 1
    ensures SelectiveJoin(parts, 2 * m) == SelectiveJoin(Merged(parts), m)
    ensures SelectiveJoin(parts, 2 * m + 1) == [parts[0]] + SelectiveJoin(parts[1..], m)
    ensures m < Pow2(|parts| - 2) ==> 2 * m + 1 < Pow2(|parts| - 1)
  {
    assert (2 * m + 1) / 2 == m && (2 * m) / 2 == m;
  }

  /** Every list of strings that joins to the words is selected by a number below 2 to the number of spaces. */
  lemma {:induction false} Selected(parts: seq<string>, list: seq<string>) returns (n: nat)
    requires parts != [] && list != [] && Join(list) == Join(parts)
    requires Spaceless(parts[1..]) && |parts[0]| <= |list[0]|
    ensures n < Pow2(|parts| - 1) && SelectiveJoin(parts, n) == list
    decreases |parts|
  {
    FirstPart(parts);
    FirstPart(list);
    hide Join, Spaceless, SelectiveJoin, Merged;
    if |parts| == 1 {
      n := 0;
      SelectLast(parts, 0);
      assert list == parts;
    } else if |list[0]| == |parts[0]| {
      SpacelessTails(parts);
      assert Join(list[1..]) == "" + Join(parts[1..]);
      WordIsWhole(parts[1..], "", list[1..]);
      var m := Selected(parts[1..], list[1..]);
      n := 2 * m + 1;
      SelectNext(parts, m);
      assert list[0] == Join(parts)[..|parts[0]|] == parts[0];
      assert list == [parts[0]] + list[1..];
    } else {
      SpacelessTails(parts);
      JoinMerged(parts);
      WordIsWhole(parts[1..], parts[0] + " ", list);
      var m := Selected(Merged(parts), list);
      n := 2 * m;
      SelectNext(parts, m);
    }
  }

  predicate Selects(words: seq<string>, n: nat, list: seq<string>)
    requires words != []
  {
    n < Pow2(|words| - 1) && SelectiveJoin(words, n) == list
  }

  /**
     The numbers below 2^N and the lists of strings that join to s correspond one to one: for every such list,
     and for no other, there is a number, and it is the only one.
   */
  lemma SelectionIsOneToOne(s: string, list: seq<string>)
    requires list != []
    ensures Join(list) == s <==> exists n: nat :: Selects(Words(s), n, list)
    ensures forall n: nat, m: nat | Selects(Words(s), n, list) && Selects(Words(s), m, list) :: n == m
  {
    var words := Words(s);
    if Join(list) == s {
      assert Join(list) == "" + Join(words);
      WordIsWhole(words, "", list);
      var n := Selected(words, list);
      assert Selects(words, n, list);
      assert exists n: nat :: Selects(Words(s), n, list);
    }
    forall n: nat | Selects(words, n, list) ensures Join(list) == s {
      SelectionJoins(words, n);
    }
    assert (exists n: nat :: Selects(words, n, list)) ==> Join(list) == s;
    forall n: nat, m: nat | Selects(words, n, list) && Selects(words, m, list) ensures n == m {
      SelectionsDiffer(words, n, m);
    }
  }

  lemma SelectStep(result: seq<string>, done: string, rest: seq<string>, n: nat)
    requires rest != []
    ensures result + SelectiveJoin([done] + rest, n)
         == if n % 2 == 1 then (result + [done]) + SelectiveJoin([rest[0]] + rest[1..], n / 2)
            else result + SelectiveJoin([done + " " + rest[0]] + rest[1..], n / 2)
  {
    var parts := [done] + rest;
    assert parts[1..] == rest == [rest[0]] + rest[1..] && parts[2..] == rest[1..];
  }

  lemma JoinOne(part: string)
    ensures Join([part]) == part
  {
  }

  /** selective_join */
  method SelectJoin(parts: seq<string>, bits: nat) returns (result: seq<string>)
    requires parts != []
    ensures result == SelectiveJoin(parts, bits)
  {
    hide SelectiveJoin, Join;
    result := [];
    JoinOne(parts[0]);
    var concatenated, n, i := [parts[0]], bits, 1;
    assert [Join(concatenated)] + parts[1..] == parts;
    while i < |parts|
      invariant 1 <= i <= |parts| && concatenated != []
      invariant SelectiveJoin(parts, bits) == result + SelectiveJoin([Join(concatenated)] + parts[i..], n)
    {
      assert parts[i..][0] == parts[i] && parts[i..][1..] == parts[i + 1..];
      SelectStep(result, Join(concatenated), parts[i..], n);
      if n % 2 == 1 {
        result := result + [Join(concatenated)];
        concatenated := [parts[i]];
        JoinOne(parts[i]);
      } else {
        JoinAppend(concatenated, parts[i]);
        concatenated := concatenated + [parts[i]];
      }
      n := n / 2;
      i := i + 1;
    }
    result := result + [Join(concatenated)];
    assert [Join(concatenated)] + parts[i..] == [Join(concatenated)];
    SelectLast([Join(concatenated)], n);
  }

  // ---------------------------------------------------------------- the search

  type PathExists = string -> bool

  datatype Result =
    | Split(paths: seq<string>)
    | NoWay
    | Ambiguous(ways: seq<seq<string>>)

  function NonEmpty(list: seq<string>): (r: seq<string>)
    ensures forall p :: p in r <==> p in list && p != ""
  {
    if list == [] then [] else (if list[0] == "" then [] else [list[0]]) + NonEmpty(list[1..])
  }

  /** A way to split s in which everything but the empty strings between spaces exists. */
  predicate IsWay(s: string, there: PathExists, list: seq<string>) {
    list != [] && Join(list) == s && forall p | p in list :: p == "" || there(p)
  }

  /** What the search promises: the paths of the only way, or an error if there is none or another one. */
  ghost predicate Answers(s: string, there: PathExists, r: Result) {
    match r
    case Split(paths) =>
      exists list :: IsWay(s, there, list) && paths == NonEmpty(list) && forall l | IsWay(s, there, l) :: l == list
    case NoWay => forall l :: !IsWay(s, there, l)
    case Ambiguous(ways) =>
      && (exists l, l' :: IsWay(s, there, l) && IsWay(s, there, l') && l != l')
      && (forall l | IsWay(s, there, l) :: NonEmpty(l) in ways)
      && (forall w | w in ways :: exists l :: IsWay(s, there, l) && w == NonEmpty(l))
  }

  predicate Valid(words: seq<string>, there: PathExists, n: nat)
    requires words != []
  {
    forall p | p in NonEmpty(SelectiveJoin(words, n)) :: p == "" || there(p)
  }

  /** The paths of the valid selections below n. */
  function ValidWays(words: seq<string>, there: PathExists, n: nat): (ways: seq<seq<string>>)
    requires words != []
  {
    if n == 0 then []
    else
      ValidWays(words, there, n - 1)
      + if Valid(words, there, n - 1) then [NonEmpty(SelectiveJoin(words, n - 1))] else []
  }

  lemma ValidIsWay(s: string, there: PathExists, n: nat)
    ensures Valid(Words(s), there, n) <==> IsWay(s, there, SelectiveJoin(Words(s), n))
  {
    SelectionJoins(Words(s), n);
  }

  /** list is a valid selection with a number below n. */
  ghost predicate ValidBelow(words: seq<string>, there: PathExists, n: nat, list: seq<string>)
    requires words != []
  {
    exists k: nat :: k < n && Valid(words, there, k) && SelectiveJoin(words, k) == list
  }

  function AllNonEmpty(lists: seq<seq<string>>): seq<seq<string>> {
    seq(|lists|, i requires 0 <= i < |lists| => NonEmpty(lists[i]))
  }

  lemma AllNonEmptyAppend(lists: seq<seq<string>>, l: seq<string>)
    ensures AllNonEmpty(lists + [l]) == AllNonEmpty(lists) + [NonEmpty(l)]
  {
    hide NonEmpty;
  }

  ghost predicate Distinct<T>(s: seq<T>) {
    forall i, j | 0 <= i < j < |s| :: s[i] != s[j]
  }

  lemma DistinctAppend<T>(s: seq<T>, x: T)
    requires Distinct(s) && x !in s
    ensures Distinct(s + [x])
    ensures forall l :: l in s + [x] <==> l in s || l == x
  {
  }

  lemma ValidBelowNext(words: seq<string>, there: PathExists, n: nat, list: seq<string>)
    requires words != [] && n < Pow2(|words| - 1)
    ensures ValidBelow(words, there, n + 1, list)
       <==> ValidBelow(words, there, n, list) || (Valid(words, there, n) && SelectiveJoin(words, n) == list)
    ensures SelectiveJoin(words, n) == list ==> !ValidBelow(words, there, n, list)
  {
    hide SelectiveJoin, Valid, Pow2;
    if ValidBelow(words, there, n, list) && SelectiveJoin(words, n) == list {
      var k: nat :| k < n && Valid(words, there, k) && SelectiveJoin(words, k) == list;
      SelectionsDiffer(words, k, n);
      assert false;
    }
  }

  lemma NoneBelow(words: seq<string>, there: PathExists)
    requires words != []
    ensures AllNonEmpty([]) == ValidWays(words, there, 0) && Distinct<seq<string>>([])
    ensures forall l :: !ValidBelow(words, there, 0, l)
  {
  }

  lemma ValidWaysNext(words: seq<string>, there: PathExists, n: nat)
    requires words != []
    ensures var ways := ValidWays(words, there, n);
            ValidWays(words, there, n + 1)
            == if Valid(words, there, n) then ways + [NonEmpty(SelectiveJoin(words, n))] else ways
  {
  }

  /** The selections behind the valid ways, all of them and no two the same. */
  lemma {:induction false} ValidLists(words: seq<string>, there: PathExists, n: nat) returns (lists: seq<seq<string>>)
    requires words != [] && n <= Pow2(|words| - 1)
    ensures AllNonEmpty(lists) == ValidWays(words, there, n)
    ensures forall l :: l in lists <==> ValidBelow(words, there, n, l)
    ensures Distinct(lists)
  {
    hide SelectiveJoin, Pow2, Valid, NonEmpty, ValidBelow, Distinct, AllNonEmpty, ValidWays;
    lists := [];
    NoneBelow(words, there);
    if n > 0 {
      lists := ValidLists(words, there, n - 1);
      ValidWaysNext(words, there, n - 1);
      forall l
        ensures ValidBelow(words, there, n, l)
           <==> l in lists || (Valid(words, there, n - 1) && SelectiveJoin(words, n - 1) == l)
        ensures SelectiveJoin(words, n - 1) == l ==> l !in lists
      {
        ValidBelowNext(words, there, n - 1, l);
      }
      if Valid(words, there, n - 1) {
        DistinctAppend(lists, SelectiveJoin(words, n - 1));
        AllNonEmptyAppend(lists, SelectiveJoin(words, n - 1));
        lists := lists + [SelectiveJoin(words, n - 1)];
      }
    }
  }

  function Answer(ways: seq<seq<string>>): Result {
    if |ways| == 1 then Split(ways[0]) else if |ways| == 0 then NoWay else Ambiguous(ways)
  }

  lemma AllWays(s: string, there: PathExists) returns (lists: seq<seq<string>>)
    ensures var ways := ValidWays(Words(s), there, Pow2(|Words(s)| - 1));
            && |lists| == |ways|
            && forall i | 0 <= i < |lists| :: ways[i] == NonEmpty(lists[i])
    ensures forall l :: l in lists <==> IsWay(s, there, l)
    ensures Distinct(lists)
  {
    hide Words, SelectiveJoin, ValidWays, Valid, NonEmpty, Pow2, Join;
    var words := Words(s);
    var total := Pow2(|words| - 1);
    lists := ValidLists(words, there, total);
    forall l ensures l in lists <==> IsWay(s, there, l) {
      if IsWay(s, there, l) {
        SelectionIsOneToOne(s, l);
        var n: nat :| Selects(words, n, l);
        ValidIsWay(s, there, n);
      }
      if l in lists {
        var n: nat :| n < total && Valid(words, there, n) && SelectiveJoin(words, n) == l;
        ValidIsWay(s, there, n);
      }
    }
  }

  /** Counting the valid numbers is counting the ways. */
  lemma CountedWays(s: string, there: PathExists)
    ensures Answers(s, there, Answer(ValidWays(Words(s), there, Pow2(|Words(s)| - 1))))
  {
    hide Words, ValidWays, NonEmpty, Pow2, IsWay;
    var ways := ValidWays(Words(s), there, Pow2(|Words(s)| - 1));
    var lists := AllWays(s, there);
    if |ways| == 1 {
      assert IsWay(s, there, lists[0]);
    } else if |ways| > 1 {
      assert IsWay(s, there, lists[0]) && IsWay(s, there, lists[1]);
      forall l | IsWay(s, there, l) ensures NonEmpty(l) in ways {
        var i :| 0 <= i < |lists| && lists[i] == l;
        assert ways[i] == NonEmpty(l);
      }
      forall w | w in ways ensures exists l :: IsWay(s, there, l) && w == NonEmpty(l) {
        var i :| 0 <= i < |ways| && ways[i] == w;
        assert IsWay(s, there, lists[i]);
      }
    }
  }

  /** A source without spaces is one path; any other one is stripped and searched. */
  ghost predicate Returned(source: string, there: PathExists, r: Result) {
    if ' ' !in source then r == Split([source]) else Answers(StripRight(StripLeft(source)), there, r)
  }

  /** split_paths_by_spaces, without its warnings. */
  method SplitPathsBySpaces(source: string, there: PathExists) returns (r: Result)
    ensures Returned(source, there, r)
    ensures ' ' in source ==> exists i: nat, j: nat :: TrimmedPart(source, i, j) && Answers(source[i..j], there, r)
  {
    if ' ' !in source {
      return Split([source]);
    }
    r := Search(StripRight(StripLeft(source)), there);
    ghost var i, j := StripIs(source);
    hide Answers, TrimmedPart;
    assert TrimmedPart(source, i, j) && Answers(source[i..j], there, r);
  }

  method Search(src: string, there: PathExists) returns (r: Result)
    ensures Answers(src, there, r)
  {
    hide Answers, IsWay, Words, SelectiveJoin, Pow2, NonEmpty;
    var parts := Words(src);
    var total := Pow2(|parts| - 1);
    var allWays, i := [], 0;
    while i < total
      invariant 0 <= i <= total && |allWays| == i
      invariant forall k | 0 <= k < i :: allWays[k] == SelectiveJoin(parts, k)
    {
      var way := SelectJoin(parts, i);
      allWays := allWays + [way];
      i := i + 1;
    }
    var validWays := [];
    i := 0;
    while i < |allWays|
      invariant 0 <= i <= |allWays|
      invariant validWays == ValidWays(parts, there, i)
    {
      var nonempty := NonEmpty(allWays[i]);
      if forall p | p in nonempty :: p == "" || there(p) {
        validWays := validWays + [nonempty];
      }
      i := i + 1;
    }
    CountedWays(src, there);
    r := if |validWays| == 1 then Split(validWays[0]) else if |validWays| == 0 then NoWay else Ambiguous(validWays);
  }

  // ---------------------------------------------------------------- what follows for callers

  lemma {:induction false} WordsAreUnique(words: seq<string>, list: seq<string>)
    requires words != [] && list != [] && Spaceless(words) && Spaceless(list) && Join(words) == Join(list)
    ensures words == list
    decreases |words|
  {
    FirstPart(words);
    FirstPart(list);
    WordIsWhole(words, "", list);
    WordIsWhole(list, "", words);
    if |words| > 1 {
      assert Join(words[1..]) == Join(list[1..]);
      WordsAreUnique(words[1..], list[1..]);
      assert words[0] == Join(words)[..|words[0]|] == list[0];
      assert words == [words[0]] + words[1..] && list == [list[0]] + list[1..];
    }
  }

  /** While no existing path contains a space the answer is never ambiguous: the words, if all of them exist. */
  lemma PlainPaths(s: string, there: PathExists, r: Result)
    requires Answers(s, there, r)
    requires forall p | there(p) :: ' ' !in p
    ensures r == if forall p | p in Words(s) :: p == "" || there(p) then Split(NonEmpty(Words(s))) else NoWay
  {
    var words := Words(s);
    forall l | IsWay(s, there, l) ensures l == words {
      assert forall i | 0 <= i < |l| :: l[i] in l;
      WordsAreUnique(words, l);
    }
    hide Words, NonEmpty, Join, Spaceless;
    if forall p | p in words :: p == "" || there(p) {
      assert IsWay(s, there, words);
    } else {
      assert !IsWay(s, there, words);
    }
  }

  lemma JoinThenSearch(paths: seq<string>, there: PathExists, r: Result)
    requires paths != [] && forall p | p in paths :: p != "" && there(p)
    requires Answers(Join(paths), there, r)
    ensures r == Split(paths) <==> forall l | IsWay(Join(paths), there, l) :: l == paths
  {
    assert IsWay(Join(paths), there, paths);
    NonEmptyIsAll(paths);
    hide Join, NonEmpty;
    if r == Split(paths) {
      var list :| IsWay(Join(paths), there, list) && forall l | IsWay(Join(paths), there, l) :: l == list;
      assert list == paths;
    } else {
      assert forall list | IsWay(Join(paths), there, list) :: NonEmpty(list) != paths || exists l :: IsWay(Join(paths), there, l) && l != list;
    }
  }

  /** Empty strings only make a joined list longer. */
  lemma {:induction false} NonEmptyShortens(list: seq<string>)
    ensures |Join(NonEmpty(list))| <= |Join(list)|
    decreases |list|
  {
    if list != [] {
      var head, rest := list[0], list[1..];
      assert list == [head] + rest;
      NonEmptyShortens(rest);
      NonEmptyCons(head, rest);
      if rest != [] {
        JoinCons(head, rest);
        if NonEmpty(rest) != [] {
          JoinCons(head, NonEmpty(rest));
        }
      }
    }
  }

  /** A list of paths cannot come out of a string that is shorter than the paths joined. */
  lemma NotFromShorter(t: string, there: PathExists, r: Result, paths: seq<string>)
    requires Answers(t, there, r) && |t| < |Join(paths)|
    ensures r != Split(paths)
  {
    forall list | IsWay(t, there, list) ensures NonEmpty(list) != paths {
      NonEmptyShortens(list);
    }
  }

  lemma NoSpaceIsOne(paths: seq<string>)
    requires paths != [] && ' ' !in Join(paths)
    ensures |paths| == 1 && paths[0] == Join(paths)
  {
    var s := Join(paths);
    FirstPart(paths);
    forall i | 0 <= i < |s| ensures s[i] != ' ' {
      assert s[i] in s;
    }
  }

  /**
     Joining existing paths and splitting the string returns the paths if and only if the string has no space, or it
     neither starts nor ends with one and nothing else that joins to it exists.
   */
  lemma JoinThenSplit(paths: seq<string>, there: PathExists, r: Result)
    requires paths != [] && forall p | p in paths :: p != "" && there(p)
    requires Returned(Join(paths), there, r)
    ensures r == Split(paths) <==>
            ' ' !in Join(paths) || (Trimmed(Join(paths)) && forall l | IsWay(Join(paths), there, l) :: l == paths)
  {
    var s := Join(paths);
    if ' ' !in s {
      NoSpaceIsOne(paths);
      assert paths == [s];
    } else {
      StripTrims(s);
      hide Join, IsWay, StripLeft, StripRight;
      if Trimmed(s) {
        JoinThenSearch(paths, there, r);
      } else {
        NotFromShorter(StripRight(StripLeft(s)), there, r, paths);
      }
    }
  }

  /** So the paths " a" and "b" are lost, if nothing else exists: stripping takes the first space. */
  lemma LeadingSpaceIsLost(there: PathExists, r: Result)
    requires forall p :: there(p) <==> p == " a" || p == "b"
    requires Returned(Join([" a", "b"]), there, r)
    ensures r == NoWay && forall l | IsWay(Join([" a", "b"]), there, l) :: l == [" a", "b"]
  {
    JoinCons(" a", ["b"]);
    assert Join([" a", "b"]) == " a b";
    assert StripLeft(" a b") == "a b" && StripRight("a b") == "a b";
    forall l | l != [] && Join(l) == "a b" ensures !IsWay("a b", there, l) {
      NoWayWithoutSpace(there, l);
    }
    forall l | IsWay(" a b", there, l) ensures l == [" a", "b"] {
      OnlyWay(there, l);
    }
  }

  lemma NoWayWithoutSpace(there: PathExists, l: seq<string>)
    requires forall p :: there(p) <==> p == " a" || p == "b"
    ensures !IsWay("a b", there, l)
  {
    if l != [] && Join(l) == "a b" {
      FirstPart(l);
      assert "a b"[0] == 'a';
      assert l[0] != "" && l[0][0] == 'a';
      assert " a"[0] == ' ' && "b"[0] == 'b';
      assert l[0] in l;
    }
  }

  lemma OnlyWay(there: PathExists, l: seq<string>)
    requires forall p :: there(p) <==> p == " a" || p == "b"
    requires IsWay(" a b", there, l)
    ensures l == [" a", "b"]
  {
    FirstPart(l);
    assert l[0] in l;
    var rest := l[1..];
    assert l == [l[0]] + rest;
    assert forall p | p in rest :: p in l;
    NoWayWithoutSpace(there, rest);
    assert " a b"[1..] == "a b" && " a b"[3..] == "b";
    assert l[0] == " a" && rest != [];
    FirstPart(rest);
    assert rest[0] in rest;
    assert rest == ["b"];
  }

  lemma {:induction false} NonEmptyIsAll(paths: seq<string>)
    requires forall p | p in paths :: p != ""
    ensures NonEmpty(paths) == paths
  {
    if paths != [] {
      assert forall p | p in paths[1..] :: p in paths;
      assert paths[0] in paths;
      NonEmptyIsAll(paths[1..]);
    }
  }

  // ---------------------------------------------------------------- two ways that name the same paths

  /** Ways are counted before empty strings are dropped, so two of them may name the same paths. */
  ghost predicate SamePaths(s: string, there: PathExists, l: seq<string>, l': seq<string>) {
    IsWay(s, there, l) && IsWay(s, there, l') && l != l' && NonEmpty(l) == NonEmpty(l')
  }

  /** A path that consists of spaces alone. */
  predicate Spaces(p: string) {
    p != "" && forall i | 0 <= i < |p| :: p[i] == ' '
  }

  predicate SwappableAt(list: seq<string>, i: int) {
    0 <= i < |list| - 1 && ((list[i] == "" && Spaces(list[i + 1])) || (Spaces(list[i]) && list[i + 1] == ""))
  }

  /** Some empty string has such a path next to it. */
  ghost predicate Swappable(list: seq<string>) {
    exists i :: SwappableAt(list, i)
  }

  function Swapped(list: seq<string>, i: int): (r: seq<string>)
    requires SwappableAt(list, i)
    ensures |r| == |list| && multiset(r) == multiset(list)
  {
    list[i := list[i + 1]][i + 1 := list[i]]
  }

  lemma SpacesCommute(a: string, b: string)
    requires a == "" || b == ""
    requires (forall i | 0 <= i < |a| :: a[i] == ' ') && forall i | 0 <= i < |b| :: b[i] == ' '
    ensures a + " " + b == b + " " + a
  {
  }

  lemma SwapFirst(a: string, b: string, more: seq<string>)
    requires (a == "" && Spaces(b)) || (Spaces(a) && b == "")
    ensures Join([b] + ([a] + more)) == Join([a] + ([b] + more))
    ensures NonEmpty([b] + ([a] + more)) == NonEmpty([a] + ([b] + more))
  {
    NonEmptyCons(b, [a] + more);
    NonEmptyCons(a, [b] + more);
    NonEmptyCons(a, more);
    NonEmptyCons(b, more);
    hide NonEmpty;
    JoinTwo(a, b, more);
    JoinTwo(b, a, more);
    SpacesCommute(a, b);
  }

  lemma JoinTwo(a: string, b: string, more: seq<string>)
    ensures Join([a] + ([b] + more)) == if more == [] then a + " " + b else (a + " " + b) + " " + Join(more)
  {
    JoinCons(a, [b] + more);
    if more == [] {
      assert [b] + more == [b];
    } else {
      JoinCons(b, more);
      hide Join;
      assert a + " " + (b + " " + Join(more)) == (a + " " + b) + " " + Join(more);
    }
  }

  lemma {:induction false} SwapKeepsAll(list: seq<string>, i: int)
    requires SwappableAt(list, i)
    ensures Join(Swapped(list, i)) == Join(list) && NonEmpty(Swapped(list, i)) == NonEmpty(list)
    decreases |list|
  {
    hide Join, NonEmpty;
    if i > 0 {
      var head, rest := list[0], list[1..];
      assert list == [head] + rest && Swapped(list, i) == [head] + Swapped(rest, i - 1);
      SwapKeepsAll(rest, i - 1);
      NonEmptyCons(head, rest);
      JoinCons(head, rest);
      NonEmptyCons(head, Swapped(rest, i - 1));
      JoinCons(head, Swapped(rest, i - 1));
    } else {
      var more := list[2..];
      assert list == [list[0]] + ([list[1]] + more) && Swapped(list, i) == [list[1]] + ([list[0]] + more);
      SwapFirst(list[0], list[1], more);
    }
  }

  /** s starts with j spaces and then q. */
  predicate Indented(s: string, j: nat, q: string) {
    && j + |q| <= |s|
    && (forall k | 0 <= k < j :: s[k] == ' ')
    && forall k | 0 <= k < |q| :: s[j + k] == q[k]
  }

  lemma IndentMore(s: string, j: nat, q: string)
    requires Indented(s, j, q)
    ensures Indented("" + " " + s, j + 1, q)
  {
    forall k | 0 <= k < |q| ensures (" " + s)[j + 1 + k] == q[k] {
      assert (" " + s)[j + 1 + k] == s[j + k];
    }
  }

  lemma NotIndented(s: string, q: string)
    requires q <= s
    ensures Indented(s, 0, q)
  {
  }

  /** The first path of a list, behind j empty strings. */
  lemma {:induction false} LeadingEmpties(list: seq<string>) returns (j: nat)
    requires NonEmpty(list) != []
    ensures j < |list| && list[j] == NonEmpty(list)[0] != "" && (j > 0 ==> list[j - 1] == "")
    ensures (j > 0 <==> list[0] == "") && Indented(Join(list), j, list[j])
    decreases |list|
  {
    assert list == [list[0]] + list[1..];
    NonEmptyCons(list[0], list[1..]);
    FirstPart(list);
    hide Join, NonEmpty, Indented;
    if list[0] != "" {
      j := 0;
      NotIndented(Join(list), list[0]);
    } else {
      JoinCons(list[0], list[1..]);
      j := LeadingEmpties(list[1..]);
      IndentMore(Join(list[1..]), j, list[1..][j]);
      j := j + 1;
    }
  }

  /** If one list starts with an empty string and the other with a path, that path is made of spaces. */
  lemma EmptyFirst(l: seq<string>, l': seq<string>)
    requires l != [] && l' != [] && l[0] == "" && l'[0] != "" && Join(l) == Join(l') && NonEmpty(l) == NonEmpty(l')
    ensures Swappable(l)
  {
    var q := l'[0];
    assert l' == [q] + l'[1..];
    NonEmptyCons(q, l'[1..]);
    FirstPart(l');
    hide NonEmpty, Join;
    var j := LeadingEmpties(l);
    AllSpaces(q, Join(l), j, |q|);
    assert SwappableAt(l, j - 1);
  }

  lemma {:induction false} AllSpaces(q: string, s: string, j: nat, n: nat)
    requires j > 0 && q <= s && Indented(s, j, q) && n <= |q|
    ensures forall k | 0 <= k < n :: q[k] == ' '
    decreases n
  {
    if n > 0 {
      AllSpaces(q, s, j, n - 1);
      assert q[n - 1] == s[n - 1];
      if n - 1 >= j {
        assert s[j + (n - 1 - j)] == q[n - 1 - j];
      }
    }
  }

  lemma SameFirst(l: seq<string>, l': seq<string>)
    requires l != [] && l' != [] && NonEmpty(l) == NonEmpty(l')
    ensures l[0] == "" || l'[0] == "" || l[0] == l'[0]
  {
    assert l == [l[0]] + l[1..] && l' == [l'[0]] + l'[1..];
    NonEmptyCons(l[0], l[1..]);
    NonEmptyCons(l'[0], l'[1..]);
    hide NonEmpty;
    if l[0] != "" {
      assert NonEmpty(l)[0] == l[0];
    }
    if l'[0] != "" {
      assert NonEmpty(l')[0] == l'[0];
    }
  }

  lemma {:induction false} Differ(l: seq<string>, l': seq<string>)
    requires l != [] && l' != [] && l != l' && Join(l) == Join(l') && NonEmpty(l) == NonEmpty(l')
    ensures Swappable(l) || Swappable(l')
    decreases |l|
  {
    assert l == [l[0]] + l[1..] && l' == [l'[0]] + l'[1..];
    NonEmptyCons(l[0], l[1..]);
    NonEmptyCons(l'[0], l'[1..]);
    SameFirst(l, l');
    if l[0] == l'[0] {
      FirstPart(l);
      FirstPart(l');
      if l[0] != "" {
        assert NonEmpty(l)[1..] == NonEmpty(l[1..]) && NonEmpty(l')[1..] == NonEmpty(l'[1..]);
      }
      Differ(l[1..], l'[1..]);
      SwappableTail(l);
      SwappableTail(l');
    } else if l[0] == "" {
      EmptyFirst(l, l');
    } else {
      EmptyFirst(l', l);
    }
  }

  lemma SwappableTail(l: seq<string>)
    requires l != []
    ensures Swappable(l[1..]) ==> Swappable(l)
  {
    if i :| SwappableAt(l[1..], i) {
      assert SwappableAt(l, i + 1);
    }
  }

  /**
     For every string: two ways name the same paths if and only if some way has an empty string next to a path that
     consists of spaces alone.
   */
  lemma SamePathsTwice(s: string, there: PathExists)
    ensures (exists l, l' :: SamePaths(s, there, l, l')) <==> exists l :: IsWay(s, there, l) && Swappable(l)
  {
    forall l, l' | SamePaths(s, there, l, l') ensures exists w :: IsWay(s, there, w) && Swappable(w) {
      Differ(l, l');
    }
    forall l | IsWay(s, there, l) && Swappable(l) ensures exists w, w' :: SamePaths(s, there, w, w') {
      var i :| SwappableAt(l, i);
      SwapKeepsAll(l, i);
      var l' := Swapped(l, i);
      assert l[i] != l'[i];
      forall p | p in l' ensures p in l {
        assert multiset(l')[p] > 0;
      }
      assert SamePaths(s, there, l, l');
    }
  }

  lemma {:induction false} LastPart(list: seq<string>)
    requires list != []
    ensures var last := list[|list| - 1];
            && (last != "" ==> Join(list) != "" && Join(list)[|Join(list)| - 1] == last[|last| - 1])
            && (last == "" && |list| > 1 ==> Join(list) != "" && Join(list)[|Join(list)| - 1] == ' ')
    decreases |list|
  {
    if |list| > 1 {
      assert list == [list[0]] + list[1..];
      JoinCons(list[0], list[1..]);
      LastPart(list[1..]);
    }
  }

  /** A space path between two others, with an empty string before it. */
  lemma SpacesBetween(x: string, p: string, y: string)
    requires x != "" && y != "" && Spaces(p) && x[0] != ' ' && y[|y| - 1] != ' '
    ensures Trimmed(Join([x, "", p, y])) && Swappable([x, "", p, y])
  {
    var l := [x, "", p, y];
    FirstPart(l);
    LastPart(l);
    assert SwappableAt(l, 1);
  }

  lemma PathsOfSwappable(s: string, there: PathExists, w: seq<string>) returns (p: string, x: string, y: string)
    requires Trimmed(s) && IsWay(s, there, w) && Swappable(w)
    ensures there(p) && Spaces(p) && there(x) && x != "" && x[0] != ' ' && there(y) && y != "" && y[|y| - 1] != ' '
  {
    var i :| SwappableAt(w, i);
    p, x, y := if w[i] == "" then w[i + 1] else w[i], w[0], w[|w| - 1];
    FirstPart(w);
    LastPart(w);
    hide Join;
    assert p in w && x in w && y in w;
  }

  /**
     Over all strings that the search may get, exactly when that can happen: if some existing path consists of
     spaces alone, some path does not start with a space, and some path does not end with one.
   */
  lemma SamePathsPossible(there: PathExists)
    ensures (exists s, l, l' :: Trimmed(s) && SamePaths(s, there, l, l')) <==>
            && (exists p :: there(p) && Spaces(p))
            && (exists x :: there(x) && x != "" && x[0] != ' ')
            && (exists y :: there(y) && y != "" && y[|y| - 1] != ' ')
  {
    hide IsWay, Swappable, SamePaths, Trimmed;
    forall s, l, l' | Trimmed(s) && SamePaths(s, there, l, l')
      ensures (exists p :: there(p) && Spaces(p))
      ensures (exists x :: there(x) && x != "" && x[0] != ' ') && exists y :: there(y) && y != "" && y[|y| - 1] != ' '
    {
      SamePathsTwice(s, there);
      var w :| IsWay(s, there, w) && Swappable(w);
      var p, x, y := PathsOfSwappable(s, there, w);
    }
    if p, x, y :| there(p) && Spaces(p) && there(x) && x != "" && x[0] != ' ' && there(y) && y != "" && y[|y| - 1] != ' ' {
      var s, l, l' := StringOfSpaces(there, p, x, y);
    }
  }

  lemma StringOfSpaces(there: PathExists, p: string, x: string, y: string) returns (s: string, l: seq<string>, l': seq<string>)
    requires there(p) && Spaces(p) && there(x) && x != "" && x[0] != ' ' && there(y) && y != "" && y[|y| - 1] != ' '
    ensures Trimmed(s) && SamePaths(s, there, l, l')
  {
    var way := [x, "", p, y];
    s := Join(way);
    SpacesBetween(x, p, y);
    hide Join, Swappable;
    assert IsWay(s, there, way);
    SamePathsTwice(s, there);
    l, l' :| SamePaths(s, there, l, l');
  }

  /**
     While no existing path consists of spaces alone, the answer is ambiguous only if different lists of paths are
     possible, and otherwise it is the only possible list.
   */
  lemma AnswerIsAboutPaths(s: string, there: PathExists, r: Result)
    requires Answers(s, there, r) && forall p | there(p) :: !Spaces(p)
    ensures r.Ambiguous? ==> exists v, w :: v in r.ways && w in r.ways && v != w
    ensures forall paths :: r == Split(paths) <==>
              (exists l :: IsWay(s, there, l)) && forall l | IsWay(s, there, l) :: NonEmpty(l) == paths
  {
    forall w | IsWay(s, there, w) ensures !Swappable(w) {
      forall i | 0 <= i < |w| - 1 ensures !SwappableAt(w, i) {
        assert w[i] in w && w[i + 1] in w;
      }
    }
    SamePathsTwice(s, there);
    hide IsWay, NonEmpty;
    assert forall l, l' :: !SamePaths(s, there, l, l');
    if r.Ambiguous? {
      var l, l' :| IsWay(s, there, l) && IsWay(s, there, l') && l != l';
      assert !SamePaths(s, there, l, l');
      assert NonEmpty(l) in r.ways && NonEmpty(l') in r.ways;
    }
  }

  /** So it is with a path made of one space and the string that has four spaces between two paths. */
  lemma FourSpaces(there: PathExists, r: Result)
    requires there("a") && there("b") && there(" ") && Answers("a    b", there, r)
    ensures r.Ambiguous? && exists l, l' :: SamePaths("a    b", there, l, l')
  {
    var l := ["a", "", " ", "b"];
    JoinCons(" ", ["b"]);
    JoinCons("", [" ", "b"]);
    JoinCons("a", ["", " ", "b"]);
    assert IsWay("a    b", there, l) && SwappableAt(l, 1);
    hide IsWay, Swappable, NonEmpty;
    SamePathsTwice("a    b", there);
  }

  lemma NonEmptyCons(p: string, rest: seq<string>)
    ensures NonEmpty([p] + rest) == if p == "" then NonEmpty(rest) else [p] + NonEmpty(rest)
  {
    assert ([p] + rest)[1..] == rest;
  }
}
