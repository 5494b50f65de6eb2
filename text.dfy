/** The pieces of .NET's string handling that both components rely on:
    the runtime's culture-dependent primitives, char.IsWhiteSpace,
    string.IsNullOrWhiteSpace, string.Split over a set of separator
    characters, and string.Join with a one-character separator. */
module Text {

  /** What the engine takes from the .NET runtime without being able to see
      its definition: char.IsLetter, the culture's ToUpper and ToLower, and
      string.GetHashCode (randomised per process). Nothing is assumed about
      these functions unless a lemma says so in its requires. */
  datatype Runtime = Runtime(
    isLetter: char -> bool,
    upper: string -> string,
    lower: string -> string,
    hash: string -> int)

  /** string.Equals(a, b, StringComparison.OrdinalIgnoreCase), read as
      equality after upper-casing. */
  predicate EqualsIgnoreCase(rt: Runtime, a: string, b: string)
  {
    rt.upper(a) == rt.upper(b)
  }

  /** Upper-casing an upper-cased string changes nothing. */
  ghost predicate UpperIdempotent(rt: Runtime)
  {
    forall s :: rt.upper(rt.upper(s)) == rt.upper(s)
  }

  /** char.IsWhiteSpace on a UTF-16 code unit: the Unicode space, line and
      paragraph separators, U+0009..U+000D and U+0085. */
  predicate IsWhiteSpaceCode(x: int)
  {
    || (0x09 <= x <= 0x0D)
    || x == 0x20 || x == 0x85 || x == 0xA0 || x == 0x1680
    || (0x2000 <= x <= 0x200A)
    || x == 0x2028 || x == 0x2029 || x == 0x202F || x == 0x205F || x == 0x3000
  }

  predicate IsWhiteSpace(ch: char)
  {
    IsWhiteSpaceCode(ch as int)
  }

  /** string.IsNullOrWhiteSpace on a non-null string: empty or only white space. */
  predicate IsBlank(s: string)
  {
    forall k | 0 <= k < |s| :: IsWhiteSpace(s[k])
  }

  /** The position of the first separator in `s`, or |s| when there is none. */
  function IndexOfAny<C(==)>(s: seq<C>, seps: set<C>): (i: nat)
    ensures i <= |s|
    ensures forall k | 0 <= k < i :: s[k] !in seps
    ensures i < |s| ==> s[i] in seps
  {
    if |s| == 0 then 0
    else if s[0] in seps then 0
    else 1 + IndexOfAny(s[1..], seps)
  }

  /** string.Split(params char[] separators): every separator ends a piece,
      empty pieces are kept, so there is always at least one piece. */
  function Split<C(==)>(s: seq<C>, seps: set<C>): (parts: seq<seq<C>>)
    ensures |parts| >= 1
    ensures parts[0] == s[..IndexOfAny(s, seps)]
    ensures |parts| == 1 <==> IndexOfAny(s, seps) == |s|
    ensures forall j, k | 0 <= j < |parts| && 0 <= k < |parts[j]| :: parts[j][k] !in seps
    decreases |s|
  {
    var i := IndexOfAny(s, seps);
    if i == |s| then [s]
    else [s[..i]] + Split(s[i + 1..], seps)
  }

  /** The total length of some strings. */
  function TotalLength<C>(parts: seq<seq<C>>): nat
  {
    if |parts| == 0 then 0 else |parts[0]| + TotalLength(parts[1..])
  }

  /** string.Join(char separator, parts); no parts give "". */
  function Join<C>(sep: C, parts: seq<seq<C>>): seq<C>
  {
    if |parts| == 0 then []
    else if |parts| == 1 then parts[0]
    else parts[0] + [sep] + Join(sep, parts[1..])
  }

  /** A join holds every part and one separator between neighbours: its
      length is the parts' total plus one less than their number, it starts
      with the first part, and the separator follows that part when there is
      a second one. */
  lemma {:induction false} JoinShape<C>(sep: C, parts: seq<seq<C>>)
    requires |parts| > 0
    ensures |Join(sep, parts)| == TotalLength(parts) + |parts| - 1
    ensures |parts[0]| <= |Join(sep, parts)| && Join(sep, parts)[..|parts[0]|] == parts[0]
    ensures |parts| > 1 ==> Join(sep, parts)[|parts[0]|] == sep
  {
    if |parts| > 1 {
      JoinShape(sep, parts[1..]);
    }
  }

  lemma JoinCons<C>(sep: C, p: seq<C>, tail: seq<seq<C>>)
    requires |tail| >= 1
    ensures Join(sep, [p] + tail) == p + [sep] + Join(sep, tail)
  {
    assert ([p] + tail)[1..] == tail;
  }

  /** Joining the pieces of a split on one separator gives the string back. */
  lemma {:induction false} JoinSplit<C>(sep: C, s: seq<C>)
    ensures Join(sep, Split(s, {sep})) == s
    decreases |s|
  {
    var i := IndexOfAny(s, {sep});
    if i < |s| {
      var tail := Split(s[i + 1..], {sep});
      JoinSplit(sep, s[i + 1..]);
      SplitAt(s, {sep}, i);
      JoinSplitStep(sep, s, i, tail);
    }
  }

  /** The piece before a separator, the separator, and a join that gives the
      rest back, give the whole string back. */
  lemma JoinSplitStep<C>(sep: C, s: seq<C>, i: nat, tail: seq<seq<C>>)
    requires i < |s| && s[i] == sep && |tail| >= 1 && Join(sep, tail) == s[i + 1..]
    ensures Join(sep, [s[..i]] + tail) == s
  {
    JoinCons(sep, s[..i], tail);
    SliceAround(s, i);
  }

  lemma SliceAround<C>(s: seq<C>, i: nat)
    requires i < |s|
    ensures s[..i] + [s[i]] + s[i + 1..] == s
  {
  }

  /** Splitting a join of separator-free pieces gives the pieces back. */
  lemma {:induction false} SplitJoin<C>(sep: C, parts: seq<seq<C>>)
    requires |parts| >= 1
    requires forall j, k | 0 <= j < |parts| && 0 <= k < |parts[j]| :: parts[j][k] != sep
    ensures Split(Join(sep, parts), {sep}) == parts
  {
    var p := parts[0];
    assert forall k | 0 <= k < |p| :: p[k] != sep;
    if |parts| == 1 {
      assert IndexOfAny(p, {sep}) == |p|;
    } else {
      SplitJoin(sep, parts[1..]);
      SplitJoinStep(sep, p, Join(sep, parts[1..]));
      assert parts == [p] + parts[1..];
    }
  }

  lemma SplitJoinStep<C>(sep: C, p: seq<C>, rest: seq<C>)
    requires forall k | 0 <= k < |p| :: p[k] != sep
    ensures Split(p + [sep] + rest, {sep}) == [p] + Split(rest, {sep})
  {
    var s := p + [sep] + rest;
    SliceConcat(p, sep, rest);
    assert IndexOfAny(s, {sep}) == |p|;
  }

  lemma SliceConcat<C>(a: seq<C>, x: C, b: seq<C>)
    ensures (a + [x] + b)[|a|] == x
    ensures (a + [x] + b)[..|a|] == a
    ensures (a + [x] + b)[|a| + 1..] == b
  {
  }

  /** A split at the first separator, found at position `i`. */
  lemma SplitAt<C>(s: seq<C>, seps: set<C>, i: nat)
    requires i < |s| && s[i] in seps && forall k | 0 <= k < i :: s[k] !in seps
    ensures Split(s, seps) == [s[..i]] + Split(s[i + 1..], seps)
  {
    assert IndexOfAny(s, seps) == i;
  }

  /** A separator-free piece, then a separator: the piece comes first. */
  lemma SplitAfter<C>(w: seq<C>, c: C, rest: seq<C>, seps: set<C>)
    requires c in seps && forall k | 0 <= k < |w| :: w[k] !in seps
    ensures Split(w + [c] + rest, seps) == [w] + Split(rest, seps)
  {
    var t := w + [c] + rest;
    SliceConcat(w, c, rest);
    assert forall k | 0 <= k < |w| :: t[k] == w[k];
    SplitAt(t, seps, |w|);
  }

  /** A string without separators splits into itself alone. */
  lemma SplitNone<C>(s: seq<C>, seps: set<C>)
    requires forall k | 0 <= k < |s| :: s[k] !in seps
    ensures Split(s, seps) == [s]
  {
    assert IndexOfAny(s, seps) == |s|;
  }

  /** The strings of `xs` that are not blank, in order
      (`.Where(str => !string.IsNullOrWhiteSpace(str))`). */
  function NonBlank(xs: seq<string>): (r: seq<string>)
    ensures forall j | 0 <= j < |r| :: !IsBlank(r[j]) && r[j] in xs
    ensures forall j | 0 <= j < |xs| && !IsBlank(xs[j]) :: xs[j] in r
    ensures |r| <= |xs|
  {
    if |xs| == 0 then []
    else if IsBlank(xs[0]) then NonBlank(xs[1..])
    else [xs[0]] + NonBlank(xs[1..])
  }

  lemma {:induction false} NonBlankSnoc(xs: seq<string>, x: string)
    ensures NonBlank(xs + [x]) == NonBlank(xs) + (if IsBlank(x) then [] else [x])
  {
    if |xs| == 0 {
      assert xs + [x] == [x];
      assert [x][1..] == [];
    } else {
      assert (xs + [x])[1..] == xs[1..] + [x];
      NonBlankSnoc(xs[1..], x);
    }
  }
}
