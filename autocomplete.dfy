/** The person-name autocompleter of AutoComplete/AutoComplete.cs: a sorted
    set of "Surname Name Patronymic" strings, filled in bulk and queried by
    prefix as a half-open range of the set.

    Strings are sequences of UTF-16 code units and are compared ordinally,
    code unit by code unit, a proper prefix coming first. */
module AutoComplete {
  import opened Wrappers
  import opened Text

  /** A .NET `char`: one UTF-16 code unit. */
  newtype Char16 = x: int | 0 <= x < 0x1_0000

  type Str = seq<Char16>

  const Space: Char16 := 0x20

  /** The exceptions the component throws. */
  datatype Error = ArgumentNull | Argument

  predicate Blank(s: Str)
  {
    forall k | 0 <= k < |s| :: IsWhiteSpaceCode(s[k] as int)
  }

  /** string.IsNullOrWhiteSpace, `None` standing for null. */
  predicate IsNullOrWhiteSpace(f: Option<Str>)
  {
    f.None? || Blank(f.value)
  }

  // ---------------------------------------------------------------------
  // Ordinal order

  predicate Less(a: Str, b: Str)
    decreases |a|
  {
    if |a| == 0 then |b| > 0
    else if |b| == 0 then false
    else a[0] < b[0] || (a[0] == b[0] && Less(a[1..], b[1..]))
  }

  predicate LessEq(a: Str, b: Str)
  {
    a == b || Less(a, b)
  }

  lemma {:induction false} LessIrreflexive(a: Str)
    ensures !Less(a, a)
  {
    if |a| > 0 {
      LessIrreflexive(a[1..]);
    }
  }

  lemma {:induction false} LessTransitive(a: Str, b: Str, c: Str)
    requires Less(a, b) && Less(b, c)
    ensures Less(a, c)
    decreases |a|
  {
    if |a| > 0 && a[0] == b[0] && b[0] == c[0] {
      LessTransitive(a[1..], b[1..], c[1..]);
    }
  }

  /** Any two strings are ordered one way or the other, or are equal. */
  lemma {:induction false} LessTotal(a: Str, b: Str)
    ensures a == b || Less(a, b) || Less(b, a)
    decreases |a|
  {
    if |a| > 0 && |b| > 0 && a[0] == b[0] {
      LessTotal(a[1..], b[1..]);
      if a[1..] == b[1..] {
        assert a == [a[0]] + a[1..] && b == [b[0]] + b[1..];
      }
    }
  }

  lemma LessAsymmetric(a: Str, b: Str)
    ensures !(Less(a, b) && Less(b, a))
  {
    if Less(a, b) && Less(b, a) {
      LessTransitive(a, b, a);
      LessIrreflexive(a);
    }
  }

  /** Strings that agree up to a code unit are ordered by that code unit. */
  lemma {:induction false} LessAt(a: Str, b: Str, i: nat)
    requires i < |a| && i < |b| && a[..i] == b[..i] && a[i] < b[i]
    ensures Less(a, b)
  {
    if i > 0 {
      assert a[0] == a[..i][0] && b[0] == b[..i][0];
      assert a[1..][..i - 1] == b[1..][..i - 1];
      LessAt(a[1..], b[1..], i - 1);
    }
  }

  /** `Less` is the ordinal order of `string.CompareOrdinal`: `a` comes
      first when it is a proper prefix of `b`, or when at the first code
      unit where they differ, `a`'s is the smaller. */
  lemma {:induction false} LessIsOrdinal(a: Str, b: Str)
    ensures Less(a, b) <==>
              || (|a| < |b| && a == b[..|a|])
              || exists k | 0 <= k < |a| && k < |b| :: a[..k] == b[..k] && a[k] < b[k]
    decreases |a|
  {
    if |a| > 0 && |b| > 0 {
      var a', b' := a[1..], b[1..];
      LessIsOrdinal(a', b');
      if Less(a, b) && a[0] == b[0] {
        if |a'| < |b'| && a' == b'[..|a'|] {
          assert a == [a[0]] + a' && b[..|a|] == [b[0]] + b'[..|a'|];
        } else {
          var k :| 0 <= k < |a'| && k < |b'| && a'[..k] == b'[..k] && a'[k] < b'[k];
          assert a[..k + 1] == [a[0]] + a'[..k] && b[..k + 1] == [b[0]] + b'[..k];
        }
      }
      if |a| < |b| && a == b[..|a|] {
        assert a[0] == b[0] && a' == b'[..|a'|];
      }
      if exists k | 0 <= k < |a| && k < |b| :: a[..k] == b[..k] && a[k] < b[k] {
        var k :| 0 <= k < |a| && k < |b| && a[..k] == b[..k] && a[k] < b[k];
        if k > 0 {
          assert a[0] == a[..k][0] && b[0] == b[..k][0];
          assert a'[..k - 1] == a[..k][1..] && b'[..k - 1] == b[..k][1..];
          assert a'[k - 1] == a[k] && b'[k - 1] == b[k];
        }
      }
    }
  }

  predicate StartsWith(s: Str, p: Str)
  {
    |p| <= |s| && s[..|p|] == p
  }

  /** `newPrefix`: the prefix with its last code unit incremented, wrapping
      from U+FFFF to U+0000 as the unchecked `(char)` cast does. */
  function Successor(p: Str): (q: Str)
    requires |p| > 0
    ensures |q| == |p| && q[..|p| - 1] == p[..|p| - 1]
  {
    p[..|p| - 1] + [((p[|p| - 1] as int + 1) % 0x1_0000) as Char16]
  }

  /** Under ordinal order the strings from `p` (inclusive) up to its
      successor (exclusive) are exactly those that start with `p`, as long
      as the last code unit of `p` can be incremented. */
  lemma {:induction false} RangeIsPrefix(p: Str, s: Str)
    requires |p| > 0 && p[|p| - 1] != 0xFFFF
    ensures LessEq(p, s) && Less(s, Successor(p)) <==> StartsWith(s, p)
    decreases |p|
  {
    var q := Successor(p);
    if |s| == 0 {
      return;
    }
    assert s == [s[0]] + s[1..];
    assert p == [p[0]] + p[1..];
    if |p| == 1 {
      assert q == [p[0] + 1];
      assert q[1..] == [] && p[1..] == [];
      assert !Less(s[1..], q[1..]);
      assert q[0] == p[0] + 1;
      assert Less(s, q) == (s[0] < q[0] || (s[0] == q[0] && Less(s[1..], q[1..])));
      assert Less(s, q) <==> s[0] <= p[0];
      assert Less(p, s) == (p[0] < s[0] || (p[0] == s[0] && Less(p[1..], s[1..])));
      assert Less(p[1..], s[1..]) == (|s| > 1);
      assert LessEq(p, s) <==> p[0] <= s[0] by {
        if s[0] == p[0] && |s| == 1 {
          assert s == p;
        }
      }
      assert StartsWith(s, p) <==> s[0] == p[0];
    } else {
      assert q[0] == p[0];
      assert q[1..] == Successor(p[1..]);
      RangeIsPrefix(p[1..], s[1..]);
      if |s| >= |p| {
        assert s[..|p|] == [s[0]] + s[1..][..|p| - 1];
      }
      assert StartsWith(s, p) <==> s[0] == p[0] && StartsWith(s[1..], p[1..]);
      assert LessEq(p, s) && Less(s, q) <==>
        s[0] == p[0] && LessEq(p[1..], s[1..]) && Less(s[1..], q[1..]);
    }
  }

  /** The successor of a prefix ending in U+FFFF wraps below the prefix. */
  lemma SuccessorWraps(p: Str)
    requires |p| > 0 && p[|p| - 1] == 0xFFFF
    ensures Less(Successor(p), p)
    decreases |p|
  {
    if |p| > 1 {
      var q := Successor(p);
      assert q[0] == p[0];
      assert Successor(p[1..]) == q[1..];
      SuccessorWraps(p[1..]);
    }
  }

  // ---------------------------------------------------------------------
  // The sorted set

  ghost predicate StrictlySorted(xs: seq<Str>)
  {
    forall i, j | 0 <= i < j < |xs| :: Less(xs[i], xs[j])
  }

  function Elements(xs: seq<Str>): set<Str>
  {
    set s | s in xs
  }

  lemma NoElements(xs: seq<Str>)
    ensures Elements(xs) == {} <==> xs == []
  {
    if |xs| > 0 {
      assert xs[0] in Elements(xs);
    }
  }

  /** A strictly sorted sequence is fixed by its elements: two with the
      same elements are the same sequence. */
  lemma {:induction false} SortedUnique(xs: seq<Str>, ys: seq<Str>)
    requires StrictlySorted(xs) && StrictlySorted(ys) && Elements(xs) == Elements(ys)
    ensures xs == ys
    decreases |xs|
  {
    if |xs| == 0 {
      NoElements(ys);
    } else {
      assert xs[0] in Elements(ys);
      assert |ys| > 0;
      assert ys[0] in Elements(xs);
      var i :| 0 <= i < |xs| && xs[i] == ys[0];
      var j :| 0 <= j < |ys| && ys[j] == xs[0];
      if i > 0 {
        if j > 0 {
          LessAsymmetric(xs[0], ys[0]);
        } else {
          LessIrreflexive(xs[0]);
        }
      }
      assert xs[0] == ys[0];
      var xt, yt := xs[1..], ys[1..];
      forall x | x in Elements(xt) ensures x in Elements(yt) {
        var m :| 0 <= m < |xt| && xt[m] == x;
        assert Less(xs[0], xs[m + 1]);
        LessIrreflexive(x);
        assert xs[m + 1] in Elements(xs);
        var n :| 0 <= n < |ys| && ys[n] == x;
        assert n > 0 && yt[n - 1] == x;
      }
      forall y | y in Elements(yt) ensures y in Elements(xt) {
        var m :| 0 <= m < |yt| && yt[m] == y;
        assert Less(ys[0], ys[m + 1]);
        LessIrreflexive(y);
        assert ys[m + 1] in Elements(ys);
        var n :| 0 <= n < |xs| && xs[n] == y;
        assert n > 0 && xt[n - 1] == y;
      }
      SortedUnique(xt, yt);
      assert xs == [xs[0]] + xt && ys == [ys[0]] + yt;
    }
  }

  /** A string below every element of a sorted set can go in front. */
  lemma SortedCons(x: Str, xs: seq<Str>)
    requires StrictlySorted(xs) && forall y | y in xs :: Less(x, y)
    ensures StrictlySorted([x] + xs)
  {
    var r := [x] + xs;
    forall i, j | 0 <= i < j < |r| ensures Less(r[i], r[j]) {
      assert r[j] == xs[j - 1] && xs[j - 1] in xs;
      if i > 0 {
        assert r[i] == xs[i - 1];
      }
    }
  }

  /** `SortedSet.Add`: the set with `s` in its place, no duplicate made. */
  function Insert(xs: seq<Str>, s: Str): (r: seq<Str>)
    requires StrictlySorted(xs)
    ensures StrictlySorted(r) && Elements(r) == Elements(xs) + {s}
  {
    if |xs| == 0 then [s]
    else if xs[0] == s then xs
    else if Less(s, xs[0]) then
      InsertFront(xs, s);
      [s] + xs
    else
      SortedTail(xs);
      var rest := Insert(xs[1..], s);
      InsertAfterHead(xs, s, rest);
      [xs[0]] + rest
  }

  /** A string below the first of a sorted set goes in front. */
  lemma InsertFront(xs: seq<Str>, s: Str)
    requires StrictlySorted(xs) && |xs| > 0 && Less(s, xs[0])
    ensures StrictlySorted([s] + xs) && Elements([s] + xs) == Elements(xs) + {s}
  {
    assert forall y | y in xs :: Less(s, y) by {
      forall y | y in xs ensures Less(s, y) {
        var k :| 0 <= k < |xs| && xs[k] == y;
        if k > 0 {
          LessTransitive(s, xs[0], y);
        }
      }
    }
    SortedCons(s, xs);
  }

  /** A string above the first of a sorted set goes into its tail. */
  lemma InsertAfterHead(xs: seq<Str>, s: Str, rest: seq<Str>)
    requires StrictlySorted(xs) && |xs| > 0 && xs[0] != s && !Less(s, xs[0])
    requires StrictlySorted(rest) && Elements(rest) == Elements(xs[1..]) + {s}
    ensures StrictlySorted([xs[0]] + rest) && Elements([xs[0]] + rest) == Elements(xs) + {s}
  {
    var tail := xs[1..];
    assert forall y | y in rest :: Less(xs[0], y) by {
      LessTotal(s, xs[0]);
      forall y | y in rest ensures Less(xs[0], y) {
        assert y in Elements(rest);
        if y != s {
          var k :| 0 <= k < |tail| && tail[k] == y;
          assert xs[k + 1] == y;
        }
      }
    }
    SortedCons(xs[0], rest);
    assert xs == [xs[0]] + tail;
    assert Elements(xs) == {xs[0]} + Elements(tail);
    assert Elements([xs[0]] + rest) == {xs[0]} + Elements(rest);
  }

  /** The strings of `xs` between `lo` and `hi`, both included, in order
      (`GetViewBetween(lo, hi)`). */
  function View(xs: seq<Str>, lo: Str, hi: Str): (r: seq<Str>)
    ensures forall s :: s in r <==> s in xs && LessEq(lo, s) && LessEq(s, hi)
  {
    if |xs| == 0 then []
    else (if LessEq(lo, xs[0]) && LessEq(xs[0], hi) then [xs[0]] else []) + View(xs[1..], lo, hi)
  }

  /** `xs` without `x` (`Except(new[] { x })` on a duplicate-free sequence). */
  function Without(xs: seq<Str>, x: Str): (r: seq<Str>)
    ensures forall s :: s in r <==> s in xs && s != x
  {
    if |xs| == 0 then []
    else (if xs[0] != x then [xs[0]] else []) + Without(xs[1..], x)
  }

  /** The strings of `xs` that start with `p`, in order. */
  function WithPrefix(xs: seq<Str>, p: Str): (r: seq<Str>)
    ensures forall s :: s in r <==> s in xs && StartsWith(s, p)
  {
    if |xs| == 0 then []
    else (if StartsWith(xs[0], p) then [xs[0]] else []) + WithPrefix(xs[1..], p)
  }

  /** Keeping the elements that lie in a range of a sorted set keeps it sorted. */
  lemma SortedKeep(xs: seq<Str>, r: seq<Str>, head: seq<Str>, rest: seq<Str>)
    requires |xs| > 0 && StrictlySorted(xs)
    requires r == head + rest && (head == [] || head == [xs[0]])
    requires StrictlySorted(rest) && forall s | s in rest :: s in xs[1..]
    ensures StrictlySorted(r)
  {
    if head != [] {
      forall s | s in rest ensures Less(xs[0], s) {
        var m :| 0 <= m < |xs[1..]| && xs[1..][m] == s;
        assert xs[m + 1] == s;
      }
      SortedCons(xs[0], rest);
    }
  }

  lemma SortedTail(xs: seq<Str>)
    requires |xs| > 0 && StrictlySorted(xs)
    ensures StrictlySorted(xs[1..])
  {
    var tail := xs[1..];
    forall i, j | 0 <= i < j < |tail| ensures Less(tail[i], tail[j]) {
      assert tail[i] == xs[i + 1] && tail[j] == xs[j + 1];
    }
  }

  lemma {:induction false} ViewSorted(xs: seq<Str>, lo: Str, hi: Str)
    requires StrictlySorted(xs)
    ensures StrictlySorted(View(xs, lo, hi))
  {
    if |xs| > 0 {
      SortedTail(xs);
      ViewSorted(xs[1..], lo, hi);
      var head := if LessEq(lo, xs[0]) && LessEq(xs[0], hi) then [xs[0]] else [];
      SortedKeep(xs, View(xs, lo, hi), head, View(xs[1..], lo, hi));
    }
  }

  lemma {:induction false} WithoutSorted(xs: seq<Str>, x: Str)
    requires StrictlySorted(xs)
    ensures StrictlySorted(Without(xs, x))
  {
    if |xs| > 0 {
      SortedTail(xs);
      WithoutSorted(xs[1..], x);
      var head := if xs[0] != x then [xs[0]] else [];
      SortedKeep(xs, Without(xs, x), head, Without(xs[1..], x));
    }
  }

  /** A range with its upper end taken out is the strings that start with
      the prefix, in the same order. */
  lemma {:induction false} RangeIsWithPrefix(xs: seq<Str>, p: Str)
    requires |p| > 0 && p[|p| - 1] != 0xFFFF
    ensures Without(View(xs, p, Successor(p)), Successor(p)) == WithPrefix(xs, p)
  {
    if |xs| > 0 {
      var q := Successor(p);
      var x := xs[0];
      RangeIsWithPrefix(xs[1..], p);
      RangeIsPrefix(p, x);
      LessIrreflexive(q);
      var keep := LessEq(p, x) && LessEq(x, q);
      var v := View(xs, p, q);
      var v' := View(xs[1..], p, q);
      assert v == (if keep then [x] else []) + v';
      assert StartsWith(x, p) <==> keep && x != q;
      assert WithPrefix(xs, p) == (if StartsWith(x, p) then [x] else []) + WithPrefix(xs[1..], p);
      if keep {
        assert v == [x] + v';
        assert v[0] == x && v[1..] == v';
        assert Without(v, q) == (if x != q then [x] else []) + Without(v', q);
        if x != q {
          assert StartsWith(x, p);
          assert WithPrefix(xs, p) == [x] + WithPrefix(xs[1..], p);
        } else {
          assert WithPrefix(xs, p) == WithPrefix(xs[1..], p);
        }
      } else {
        assert v == v';
        assert WithPrefix(xs, p) == WithPrefix(xs[1..], p);
      }
    }
  }

  // ---------------------------------------------------------------------
  // Names

  /** `FullName`: each field may be null (`None`). */
  datatype FullName = FullName(name: Option<Str>, surname: Option<Str>, patronymic: Option<Str>)

  /** The number of white-space code units `s` starts with. */
  function Leading(s: Str): (n: nat)
    ensures n <= |s|
    ensures forall k | 0 <= k < n :: IsWhiteSpaceCode(s[k] as int)
    ensures n < |s| ==> !IsWhiteSpaceCode(s[n] as int)
  {
    if |s| > 0 && IsWhiteSpaceCode(s[0] as int) then 1 + Leading(s[1..]) else 0
  }

  /** The length of `s` without the white space it ends with. */
  function Kept(s: Str): (n: nat)
    ensures n <= |s|
    ensures forall k | n <= k < |s| :: IsWhiteSpaceCode(s[k] as int)
    ensures n > 0 ==> !IsWhiteSpaceCode(s[n - 1] as int)
  {
    if |s| > 0 && IsWhiteSpaceCode(s[|s| - 1] as int) then Kept(s[..|s| - 1]) else |s|
  }

  /** `TrimStart()`: drop the leading white space. What is left is a
      suffix of `s` that does not start with white space, and what was
      dropped is all white space. */
  function TrimStart(s: Str): (r: Str)
    ensures |r| <= |s| && r == s[|s| - |r|..]
    ensures Blank(s[..|s| - |r|])
    ensures |r| > 0 ==> !IsWhiteSpaceCode(r[0] as int)
  {
    s[Leading(s)..]
  }

  /** `TrimEnd()`: drop the trailing white space. What is left is a prefix
      of `s` that does not end with white space, and what was dropped is all
      white space. */
  function TrimEnd(s: Str): (r: Str)
    ensures |r| <= |s| && r == s[..|r|]
    ensures Blank(s[|r|..])
    ensures |r| > 0 ==> !IsWhiteSpaceCode(r[|r| - 1] as int)
  {
    s[..Kept(s)]
  }

  /** `Trim()`. */
  function Trim(s: Str): Str
  {
    TrimEnd(TrimStart(s))
  }

  /** Trimming leaves the stretch of `s` between a blank start and a blank
      end: nothing when `s` is blank, otherwise a non-empty text that
      neither starts nor ends with white space. */
  lemma TrimShape(s: Str)
    ensures Blank(s) <==> Trim(s) == []
    ensures !Blank(s) ==> Tidy(Trim(s))
    ensures exists i | 0 <= i <= |s| - |Trim(s)| ::
              && Trim(s) == s[i..i + |Trim(s)|] && Blank(s[..i]) && Blank(s[i + |Trim(s)|..])
  {
    var a := TrimStart(s);
    var i := |s| - |a|;
    var r := Trim(s);
    assert a == s[i..];
    assert r == a[..|r|] && r == s[i..i + |r|];
    assert Blank(s[i + |r|..]) by {
      assert s[i + |r|..] == a[|r|..];
    }
    if !Blank(s) {
      var k :| 0 <= k < |s| && !IsWhiteSpaceCode(s[k] as int);
      assert forall j | 0 <= j < i :: s[..i][j] == s[j];
      assert a[k - i] == s[k];
      assert Kept(a) > 0;
    }
  }

  /** A text that is not empty and neither starts nor ends with white space. */
  predicate Tidy(t: Str)
  {
    |t| > 0 && !IsWhiteSpaceCode(t[0] as int) && !IsWhiteSpaceCode(t[|t| - 1] as int)
  }

  /** A filled-in field gives one tidy trimmed item; an empty one gives none. */
  lemma FilledShape(f: Option<Str>)
    ensures |Filled(f)| == if IsNullOrWhiteSpace(f) then 0 else 1
    ensures forall k | 0 <= k < |Filled(f)| :: Tidy(Filled(f)[k])
  {
    if !IsNullOrWhiteSpace(f) {
      TrimShape(f.value);
    }
  }

  /** The trimmed field, if it is filled in. */
  function Filled(f: Option<Str>): seq<Str>
  {
    if IsNullOrWhiteSpace(f) then [] else [Trim(f.value)]
  }

  /** `ToString(FullName)`: the filled-in fields, trimmed, in the order
      surname, name, patronymic, joined by single spaces; an error when no
      field is filled in. */
  function FullNameText(p: FullName): Result<Str, Error>
  {
    var items := Filled(p.surname) + Filled(p.name) + Filled(p.patronymic);
    if |items| == 0 then Failure(Argument) else Success(Join(Space, items))
  }

  /** A name has a text exactly when one of its fields is filled in; the
      text never starts or ends with white space, so it is never blank. */
  lemma FullNameTextShape(p: FullName)
    ensures FullNameText(p).Failure? <==>
              IsNullOrWhiteSpace(p.surname) && IsNullOrWhiteSpace(p.name) && IsNullOrWhiteSpace(p.patronymic)
    ensures FullNameText(p).Failure? ==> FullNameText(p).error == Argument
    ensures FullNameText(p).Success? ==> Tidy(FullNameText(p).value)
  {
    var a, b, c := Filled(p.surname), Filled(p.name), Filled(p.patronymic);
    var items := a + b + c;
    FilledShape(p.surname);
    FilledShape(p.name);
    FilledShape(p.patronymic);
    assert forall k | 0 <= k < |items| :: Tidy(items[k]) by {
      forall k | 0 <= k < |items| ensures Tidy(items[k]) {
        if k < |a| {
          assert items[k] == a[k];
        } else if k < |a| + |b| {
          assert items[k] == b[k - |a|];
        } else {
          assert items[k] == c[k - |a| - |b|];
        }
      }
    }
    if |items| > 0 {
      JoinEnds(items);
    }
  }

  /** A join of tidy pieces is tidy. */
  lemma {:induction false} JoinEnds(items: seq<Str>)
    requires |items| > 0 && forall k | 0 <= k < |items| :: Tidy(items[k])
    ensures Tidy(Join(Space, items))
  {
    if |items| > 1 {
      JoinEnds(items[1..]);
    }
  }

  /** With all three fields filled in and free of inner spaces, splitting the
      text on spaces gives back the trimmed surname, name and patronymic. */
  lemma FullNameTextFields(p: FullName)
    requires !IsNullOrWhiteSpace(p.surname) && !IsNullOrWhiteSpace(p.name) && !IsNullOrWhiteSpace(p.patronymic)
    requires Space !in Trim(p.surname.value) && Space !in Trim(p.name.value) && Space !in Trim(p.patronymic.value)
    ensures FullNameText(p).Success?
    ensures Split(FullNameText(p).value, {Space})
         == [Trim(p.surname.value), Trim(p.name.value), Trim(p.patronymic.value)]
  {
    var items := [Trim(p.surname.value), Trim(p.name.value), Trim(p.patronymic.value)];
    assert Filled(p.surname) + Filled(p.name) + Filled(p.patronymic) == items;
    forall j, k | 0 <= j < |items| && 0 <= k < |items[j]| ensures items[j][k] != Space {
      assert items[j][k] in items[j];
    }
    SplitJoin(Space, items);
  }

  /** The code units of a string of the Basic Multilingual Plane. */
  function Utf16(s: string): Str
    requires forall k | 0 <= k < |s| :: s[k] as int < 0x1_0000
  {
    seq(|s|, k requires 0 <= k < |s| => s[k] as int as Char16)
  }

  // The bulk add is stated over any way `textOf` of turning a name into
  // its text; the class instantiates it with `FullNameText`.

  /** The first name whose text cannot be formed, or the number of names. */
  function FirstUnnamed(textOf: FullName -> Result<Str, Error>, ps: seq<FullName>): (n: nat)
    ensures n <= |ps|
  {
    if |ps| == 0 then 0
    else if textOf(ps[0]).Failure? then 0
    else 1 + FirstUnnamed(textOf, ps[1..])
  }

  /** Every name before the first unnamed one has a text, and the first
      unnamed one has none. */
  lemma {:induction false} FirstUnnamedIsFirst(textOf: FullName -> Result<Str, Error>, ps: seq<FullName>)
    ensures forall k | 0 <= k < FirstUnnamed(textOf, ps) :: textOf(ps[k]).Success?
    ensures FirstUnnamed(textOf, ps) < |ps| ==> textOf(ps[FirstUnnamed(textOf, ps)]).Failure?
  {
    if |ps| > 0 && textOf(ps[0]).Success? {
      FirstUnnamedIsFirst(textOf, ps[1..]);
      var n := FirstUnnamed(textOf, ps[1..]);
      forall k | 0 <= k < n + 1 ensures textOf(ps[k]).Success? {
        if k > 0 {
          assert ps[k] == ps[1..][k - 1];
        }
      }
      if n + 1 < |ps| {
        assert ps[n + 1] == ps[1..][n];
      }
    }
  }

  /** Conversely, a position with only named names before it and an unnamed
      one at it is the first unnamed one. */
  lemma {:induction false} FirstUnnamedAt(textOf: FullName -> Result<Str, Error>, ps: seq<FullName>, i: nat)
    requires i <= |ps| && forall k | 0 <= k < i :: textOf(ps[k]).Success?
    requires i < |ps| ==> textOf(ps[i]).Failure?
    ensures FirstUnnamed(textOf, ps) == i
  {
    if i > 0 {
      assert forall k | 0 <= k < i - 1 :: ps[1..][k] == ps[k + 1];
      FirstUnnamedAt(textOf, ps[1..], i - 1);
    }
  }

  /** The texts of the names that have one. */
  function Texts(textOf: FullName -> Result<Str, Error>, ps: seq<FullName>): set<Str>
  {
    if |ps| == 0 then {}
    else
      var last := textOf(ps[|ps| - 1]);
      Texts(textOf, ps[..|ps| - 1]) + (if last.Success? then {last.value} else {})
  }

  /** A string is among the texts exactly when some name has it as its text. */
  lemma {:induction false} TextsMembers(textOf: FullName -> Result<Str, Error>, ps: seq<FullName>, s: Str)
    ensures s in Texts(textOf, ps) <==> exists k | 0 <= k < |ps| :: textOf(ps[k]) == Success(s)
  {
    if |ps| > 0 {
      var init := ps[..|ps| - 1];
      TextsMembers(textOf, init, s);
      TextsLast(textOf, ps, init, s);
    }
  }

  lemma TextsLast(textOf: FullName -> Result<Str, Error>, ps: seq<FullName>, init: seq<FullName>, s: Str)
    requires |ps| > 0 && init == ps[..|ps| - 1]
    requires s in Texts(textOf, init) <==> exists k | 0 <= k < |init| :: textOf(init[k]) == Success(s)
    ensures s in Texts(textOf, ps) <==> exists k | 0 <= k < |ps| :: textOf(ps[k]) == Success(s)
  {
    var n := |init|;
    if s in Texts(textOf, init) {
      var k :| 0 <= k < n && textOf(init[k]) == Success(s);
      assert ps[k] == init[k];
    }
    if exists k | 0 <= k < |ps| :: textOf(ps[k]) == Success(s) {
      var k :| 0 <= k < |ps| && textOf(ps[k]) == Success(s);
      if k < n {
        assert textOf(init[k]) == Success(s);
      }
    }
  }

  /** One more name adds its text, if it has one. */
  lemma TextsStep(textOf: FullName -> Result<Str, Error>, ps: seq<FullName>, i: nat)
    requires i < |ps| && textOf(ps[i]).Success?
    ensures Texts(textOf, ps[..i + 1]) == Texts(textOf, ps[..i]) + {textOf(ps[i]).value}
  {
    assert ps[..i + 1][..i] == ps[..i];
  }

  class AutoCompleter {
    /** `searchable`: the sorted set, as its strictly ascending sequence */
    var searchable: seq<Str>
    /** `RequestLengthLimit` */
    var requestLengthLimit: int

    ghost predicate Valid()
      reads this
    {
      StrictlySorted(searchable)
    }

    /** `AutoCompleter()` (AutoComplete/AutoComplete.cs:32-35). */
    constructor ()
      ensures Valid() && searchable == [] && requestLengthLimit == 100
    {
      searchable := [];
      requestLengthLimit := 100;
    }

    /** `ToString(FullName)` (AutoComplete/AutoComplete.cs:70-88): collect the
        filled-in fields, trimmed, then join them or fail. */
    method ToString(person: FullName) returns (r: Result<Str, Error>)
      ensures r == FullNameText(person)
    {
      var items: seq<Str> := [];
      if !IsNullOrWhiteSpace(person.surname) {
        items := items + [Trim(person.surname.value)];
      }
      assert items == Filled(person.surname);
      if !IsNullOrWhiteSpace(person.name) {
        items := items + [Trim(person.name.value)];
      }
      assert items == Filled(person.surname) + Filled(person.name);
      if !IsNullOrWhiteSpace(person.patronymic) {
        items := items + [Trim(person.patronymic.value)];
      }
      assert items == Filled(person.surname) + Filled(person.name) + Filled(person.patronymic);
      if |items| == 0 {
        return Failure(Argument);
      }
      return Success(Join(Space, items));
    }

    /** `AddToSearch` (AutoComplete/AutoComplete.cs:47-58): reject a null or
        empty list and leave the set alone; otherwise add the texts of the
        names one at a time. A name without a text stops the union with an
        `ArgumentException`, the texts of the names before it already added. */
    method AddToSearch(fullNames: Option<seq<FullName>>) returns (error: Option<Error>)
      requires Valid()
      modifies this
      ensures Valid() && requestLengthLimit == old(requestLengthLimit)
      ensures fullNames.None? ==> error == Some(ArgumentNull) && searchable == old(searchable)
      ensures fullNames == Some([]) ==> error == Some(Argument) && searchable == old(searchable)
      ensures fullNames.Some? && |fullNames.value| > 0 ==>
                var ps := fullNames.value;
                var n := FirstUnnamed(FullNameText, ps);
                && Elements(searchable) == Elements(old(searchable)) + Texts(FullNameText, ps[..n])
                && error == if n == |ps| then None else Some(Argument)
    {
      if fullNames.None? {
        return Some(ArgumentNull);
      }
      var ps := fullNames.value;
      if |ps| == 0 {
        return Some(Argument);
      }
      var i := 0;
      assert ps[..0] == [] && ps[0..] == ps;
      while i < |ps|
        invariant 0 <= i <= |ps| && FirstUnnamed(FullNameText, ps) == i + FirstUnnamed(FullNameText, ps[i..])
        invariant Valid() && requestLengthLimit == old(requestLengthLimit)
        invariant Elements(searchable) == Elements(old(searchable)) + Texts(FullNameText, ps[..i])
      {
        var text := ToString(ps[i]);
        assert ps[i..][0] == ps[i] && ps[i..][1..] == ps[i + 1..];
        if text.Failure? {
          return Some(Argument);
        }
        TextsStep(FullNameText, ps, i);
        searchable := Insert(searchable, text.value);
        i := i + 1;
      }
      assert ps[..i] == ps;
      return None;
    }

    /** `Search` (AutoComplete/AutoComplete.cs:101-120): reject a null prefix,
        a blank one and one over the length limit; otherwise the stored
        strings from the prefix up to, not including, `newPrefix`, in order.
        For a prefix ending in U+FFFF, `newPrefix` wraps below the prefix and
        `GetViewBetween` rejects the range. */
    function Search(prefix: Option<Str>): (r: Result<seq<Str>, Error>)
      reads this
      ensures prefix.None? ==> r == Failure(ArgumentNull)
      ensures prefix.Some? && (Blank(prefix.value) || |prefix.value| > requestLengthLimit) ==>
                r == Failure(Argument)
      ensures prefix.Some? && !Blank(prefix.value) && |prefix.value| <= requestLengthLimit ==>
                var p := prefix.value;
                && (Less(Successor(p), p) ==> r == Failure(Argument))
                && (!Less(Successor(p), p) ==> r.Success? && forall s ::
                      s in r.value <==> s in searchable && LessEq(p, s) && Less(s, Successor(p)))
    {
      if prefix.None? then Failure(ArgumentNull)
      else
        var p := prefix.value;
        if Blank(p) then Failure(Argument)
        else if |p| > requestLengthLimit then Failure(Argument)
        else
          var newPrefix := Successor(p);
          if Less(newPrefix, p) then Failure(Argument)
          else
            LessIrreflexive(newPrefix);
            Success(Without(View(searchable, p, newPrefix), newPrefix))
    }

    /** The answer is ascending and has no duplicates, like the set. */
    lemma SearchSorted(prefix: Option<Str>)
      requires Valid() && Search(prefix).Success?
      ensures StrictlySorted(Search(prefix).value)
    {
      var p := prefix.value;
      ViewSorted(searchable, p, Successor(p));
      WithoutSorted(View(searchable, p, Successor(p)), Successor(p));
    }

    /** The range is the prefix set: a successful search answers exactly
        the stored strings that start with the prefix, never `newPrefix`. */
    lemma SearchFindsPrefixes(prefix: Option<Str>)
      requires Search(prefix).Success?
      ensures prefix.Some? && |prefix.value| > 0
      ensures forall s :: s in Search(prefix).value <==> s in searchable && StartsWith(s, prefix.value)
      ensures Successor(prefix.value) !in Search(prefix).value
    {
      var p := prefix.value;
      assert |p| > 0;
      if p[|p| - 1] == 0xFFFF {
        SuccessorWraps(p);
      }
      RangeIsWithPrefix(searchable, p);
      LessIrreflexive(Successor(p));
    }

    /** The search as it was evidently meant: the stored strings that start
        with the prefix, for every accepted prefix. */
    function SearchByPrefix(prefix: Option<Str>): (r: Result<seq<Str>, Error>)
      reads this
      ensures prefix.None? ==> r == Failure(ArgumentNull)
      ensures prefix.Some? && (Blank(prefix.value) || |prefix.value| > requestLengthLimit) ==>
                r == Failure(Argument)
      ensures prefix.Some? && !Blank(prefix.value) && |prefix.value| <= requestLengthLimit ==>
                r.Success? && forall s :: s in r.value <==> s in searchable && StartsWith(s, prefix.value)
    {
      if prefix.None? then Failure(ArgumentNull)
      else if Blank(prefix.value) || |prefix.value| > requestLengthLimit then Failure(Argument)
      else Success(WithPrefix(searchable, prefix.value))
    }

    /** The two agree except on a prefix ending in U+FFFF. */
    lemma SearchByPrefixAgrees(prefix: Option<Str>)
      ensures prefix.Some? && |prefix.value| > 0 && prefix.value[|prefix.value| - 1] != 0xFFFF ==>
                Search(prefix) == SearchByPrefix(prefix)
      ensures prefix.None? ==> Search(prefix) == SearchByPrefix(prefix)
    {
      if prefix.Some? && |prefix.value| > 0 && prefix.value[|prefix.value| - 1] != 0xFFFF {
        var p := prefix.value;
        RangeIsPrefix(p, p);
        RangeIsWithPrefix(searchable, p);
        LessAsymmetric(p, Successor(p));
      }
    }

    /** An accepted prefix ending in U+FFFF is rejected, however many stored
        strings start with it. */
    lemma SearchOverflow(p: Str)
      requires !Blank(p) && |p| <= requestLengthLimit && p[|p| - 1] == 0xFFFF
      ensures Search(Some(p)) == Failure(Argument)
      ensures SearchByPrefix(Some(p)) == Success(WithPrefix(searchable, p))
    {
      SuccessorWraps(p);
    }

    /** The demo: over the five demo names, "Анна" finds only "Анна", and
        "Аннб", the prefix's successor, is left out. */
    lemma SearchDemo()
      requires Valid() && requestLengthLimit == 100
      requires Elements(searchable)
            == {Utf16("Анастасия"), Utf16("Анна"), Utf16("Аннб"), Utf16("Богдан"), Utf16("Борис")}
      ensures Search(Some(Utf16("Анна"))) == Success([Utf16("Анна")])
    {
      DemoCodes();
      DemoOrder();
      DemoSearchable(searchable);
      var p: Str, q: Str := Anna, Annb;
      assert Successor(p) == q;
      assert !Blank(p) by {
        assert !IsWhiteSpaceCode(p[0] as int);
      }
      LessAsymmetric(p, q);
      DemoView(Anastasia, p, q, Bogdan, Boris);
      assert p != q by {
        assert p[3] != q[3];
      }
      assert Without([q], q) == [] by {
        assert [q][1..] == [];
      }
      assert Without([p, q], q) == [p] by {
        assert [p, q][1..] == [q];
      }
    }
  }

  const Anastasia: Str := [0x410, 0x43D, 0x430, 0x441, 0x442, 0x430, 0x441, 0x438, 0x44F]
  const Anna: Str := [0x410, 0x43D, 0x43D, 0x430]
  const Annb: Str := [0x410, 0x43D, 0x43D, 0x431]
  const Bogdan: Str := [0x411, 0x43E, 0x433, 0x434, 0x430, 0x43D]
  const Boris: Str := [0x411, 0x43E, 0x440, 0x438, 0x441]

  /** The code units of the demo names. */
  lemma DemoCodes()
    ensures Utf16("Анастасия") == Anastasia && Utf16("Анна") == Anna && Utf16("Аннб") == Annb
    ensures Utf16("Богдан") == Bogdan && Utf16("Борис") == Boris
  {
  }

  lemma DemoOrder()
    ensures Less(Anastasia, Anna) && Less(Anna, Annb) && Less(Annb, Bogdan) && Less(Annb, Boris)
  {
    LessAt(Anastasia, Anna, 2);
    LessAt(Anna, Annb, 3);
    LessAt(Annb, Bogdan, 0);
    LessAt(Annb, Boris, 0);
  }

  /** The only sorted set holding just the demo names lists them in this order. */
  lemma DemoSearchable(xs: seq<Str>)
    requires StrictlySorted(xs)
    requires Elements(xs) == {Utf16("Анастасия"), Utf16("Анна"), Utf16("Аннб"), Utf16("Богдан"), Utf16("Борис")}
    ensures xs == [Anastasia, Anna, Annb, Bogdan, Boris]
  {
    DemoCodes();
    DemoSorted();
    var demo := [Anastasia, Anna, Annb, Bogdan, Boris];
    assert Elements(demo) == {Anastasia, Anna, Annb, Bogdan, Boris};
    SortedUnique(xs, demo);
  }

  /** The demo names in this order are strictly sorted. */
  lemma DemoSorted()
    ensures StrictlySorted([Anastasia, Anna, Annb, Bogdan, Boris])
  {
    var demo := [Anastasia, Anna, Annb, Bogdan, Boris];
    DemoOrder();
    LessAt(Bogdan, Boris, 2);
    LessTransitive(Anastasia, Anna, Annb);
    LessTransitive(Anastasia, Annb, Bogdan);
    LessTransitive(Anastasia, Annb, Boris);
    LessTransitive(Anna, Annb, Bogdan);
    LessTransitive(Anna, Annb, Boris);
  }

  /** In a set of five where the range from `p` to `q` holds just those two,
      the view between them is `p` and `q`. */
  lemma DemoView(a: Str, p: Str, q: Str, b: Str, c: Str)
    requires Less(a, p) && Less(p, q) && Less(q, b) && Less(q, c)
    ensures View([a, p, q, b, c], p, q) == [p, q]
  {
    LessAsymmetric(a, p);
    LessAsymmetric(q, b);
    LessAsymmetric(q, c);
    LessIrreflexive(a);
    LessIrreflexive(b);
    LessIrreflexive(c);
    assert View([c], p, q) == [] by {
      assert [c][1..] == [];
    }
    assert View([b, c], p, q) == [] by {
      assert [b, c][1..] == [c];
    }
    assert View([q, b, c], p, q) == [q] by {
      assert [q, b, c][1..] == [b, c];
    }
    assert View([p, q, b, c], p, q) == [p, q] by {
      assert [p, q, b, c][1..] == [q, b, c];
    }
    assert [a, p, q, b, c][1..] == [p, q, b, c];
  }
}
