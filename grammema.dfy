/** The attribute interner (`Grammema.GetIndex`, Mophology/SentenceMorpher.cs:301-319):
    a table from lower-cased attribute names to 16-bit codes, handed out in
    order of first sight by a post-incremented `ushort` counter. The C# class
    is static; here it is an object that the engine owns and threads through
    the calls that intern names. */
module Grammema {
  import opened Text

  newtype ushort = x: int | 0 <= x < 0x1_0000

  /** The number of distinct values of a `ushort`. */
  const Capacity: nat := 0x1_0000

  ghost predicate Injective(t: map<string, ushort>)
  {
    forall a, b | a in t && b in t && a != b :: t[a] != t[b]
  }

  /** `t2` keeps every entry of `t1` unchanged. */
  ghost predicate Submap(t1: map<string, ushort>, t2: map<string, ushort>)
  {
    forall k | k in t1 :: k in t2 && t2[k] == t1[k]
  }

  /** The table keys that a list of attribute names is interned under. */
  function LowerKeys(rt: Runtime, names: seq<string>): set<string>
  {
    set n | n in names :: rt.lower(n)
  }

  /** The codes a table gives to a set of keys. */
  function Codes(t: map<string, ushort>, keys: set<string>): set<ushort>
    requires keys <= t.Keys
  {
    set k | k in keys :: t[k]
  }

  /** While the codes are injective, comparing code sets is comparing the
      attribute names themselves: this is why the engine may match forms
      on codes. */
  lemma CodesSubsetIff(t: map<string, ushort>, a: set<string>, b: set<string>)
    requires Injective(t) && a <= t.Keys && b <= t.Keys
    ensures Codes(t, a) <= Codes(t, b) <==> a <= b
  {
    if Codes(t, a) <= Codes(t, b) {
      forall x | x in a ensures x in b {
        assert t[x] in Codes(t, b);
        var y :| y in b && t[y] == t[x];
      }
    }
  }

  /** Growing a table does not change the codes of keys it already had. */
  lemma CodesSubmap(t1: map<string, ushort>, t2: map<string, ushort>, keys: set<string>)
    requires Submap(t1, t2) && keys <= t1.Keys
    ensures keys <= t2.Keys && Codes(t2, keys) == Codes(t1, keys)
  {
  }

  /** A table only grows. */
  lemma SubmapSize(t1: map<string, ushort>, t2: map<string, ushort>)
    requires Submap(t1, t2)
    ensures |t1| <= |t2|
  {
    var a, b := t1.Keys, t2.Keys;
    assert a <= b;
    assert b == a + (b - a);
    assert |b| == |a| + |b - a|;
  }

  lemma ModStep(n: nat)
    ensures (n % Capacity + 1) % Capacity == (n + 1) % Capacity
  {
    var q, r := n / Capacity, n % Capacity;
    assert n == q * Capacity + r;
    if r + 1 == Capacity {
      assert n + 1 == (q + 1) * Capacity;
    } else {
      assert n + 1 == q * Capacity + (r + 1);
    }
  }

  /** While the table fits the code space of a `ushort`, its codes are
      injective and below its size: they are exactly 0 .. |t|-1. */
  ghost predicate Dense(t: map<string, ushort>)
  {
    |t| <= Capacity ==> Injective(t) && forall k | k in t :: t[k] as int < |t|
  }

  /** Adding an unseen name under the next code keeps the codes injective
      and below the table's size, while the table fits the code space. */
  lemma FreshEntry(t: map<string, ushort>, key: string, code: ushort)
    requires key !in t && code as int == |t| % Capacity
    requires Dense(t)
    ensures |t[key := code]| == |t| + 1 && Dense(t[key := code])
  {
    var t' := t[key := code];
    assert |t'| == |t| + 1 by {
      assert t'.Keys == t.Keys + {key};
    }
    if |t'| <= Capacity {
      assert code as int == |t|;
      assert Injective(t') by {
        forall a, b | a in t' && b in t' && a != b ensures t'[a] != t'[b] {
          if a != key && b != key {
            assert t'[a] == t[a] && t'[b] == t[b];
          }
        }
      }
      assert forall k | k in t' :: t'[k] as int < |t'| by {
        forall k | k in t' ensures t'[k] as int < |t'| {
          if k != key {
            assert t'[k] == t[k];
          }
        }
      }
    }
  }

  class Interner {
    /** `grammemas`: lower-cased name to code */
    var table: map<string, ushort>
    /** `index`: the code the next unseen name gets */
    var next: ushort

    /** The counter is the table's size modulo 2^16, and the codes are dense. */
    ghost predicate Valid()
      reads this
    {
      next as int == |table| % Capacity && Dense(table)
    }

    constructor ()
      ensures Valid() && table == map[] && next == 0
    {
      table := map[];
      next := 0;
    }

    /** `GetIndex`: the code of `grammema` after lower-casing it. A name seen
        before (in any letter case that lower-cases the same) gets its old code
        and nothing changes; an unseen name gets the counter's value, and the
        counter moves on by one, wrapping at 2^16. */
    method GetIndex(rt: Runtime, grammema: string) returns (code: ushort)
      requires Valid()
      modifies this
      ensures Valid() && Submap(old(table), table)
      ensures rt.lower(grammema) in table && code == table[rt.lower(grammema)]
      ensures table.Keys == old(table.Keys) + {rt.lower(grammema)}
      ensures rt.lower(grammema) in old(table) ==>
                table == old(table) && next == old(next)
      ensures rt.lower(grammema) !in old(table) ==>
                && code == old(next)
                && table == old(table)[rt.lower(grammema) := code]
                && next as int == (old(next) as int + 1) % Capacity
    {
      var key := rt.lower(grammema);
      if key in table {
        code := table[key];
      } else {
        ModStep(|table|);
        code := next;
        FreshEntry(table, key, code);
        table := table[key := code];
        next := ((next as int + 1) % Capacity) as ushort;
      }
    }
  }

  /** The interner gives `codes[k]` to `names[k]`, for every k. */
  ghost predicate CodedAs(rt: Runtime, t: map<string, ushort>, names: seq<string>, codes: seq<ushort>)
  {
    |codes| == |names| && forall k | 0 <= k < |names| :: rt.lower(names[k]) in t && codes[k] == t[rt.lower(names[k])]
  }

  /** Codes given name by name are the codes of the names' keys. */
  lemma CodedAsCodes(rt: Runtime, t: map<string, ushort>, names: seq<string>, codes: seq<ushort>)
    requires CodedAs(rt, t, names, codes)
    ensures LowerKeys(rt, names) <= t.Keys
    ensures (set g | g in codes) == Codes(t, LowerKeys(rt, names))
  {
    forall g | g in codes ensures g in Codes(t, LowerKeys(rt, names)) {
      var k :| 0 <= k < |codes| && codes[k] == g;
      assert rt.lower(names[k]) in LowerKeys(rt, names);
    }
    forall g | g in Codes(t, LowerKeys(rt, names)) ensures g in codes {
      var key :| key in LowerKeys(rt, names) && t[key] == g;
      var n :| n in names && rt.lower(n) == key;
      var k :| 0 <= k < |names| && names[k] == n;
      assert codes[k] == g;
    }
  }

  /** One more name adds its key. */
  lemma LowerKeysSnoc(rt: Runtime, names: seq<string>, i: nat)
    requires i < |names|
    ensures LowerKeys(rt, names[..i + 1]) == LowerKeys(rt, names[..i]) + {rt.lower(names[i])}
  {
    assert names[..i + 1] == names[..i] + [names[i]];
  }

  /** One step of `InternAll`: the i-th name's code joins the codes, its key the keys. */
  lemma InternStep(rt: Runtime, keys: set<string>, t0: map<string, ushort>, t1: map<string, ushort>,
                   names: seq<string>, i: nat, codes: seq<ushort>, code: ushort)
    requires i < |names| && CodedAs(rt, t0, names[..i], codes) && Submap(t0, t1)
    requires t0.Keys == keys + LowerKeys(rt, names[..i])
    requires t1.Keys == t0.Keys + {rt.lower(names[i])}
    requires rt.lower(names[i]) in t1 && code == t1[rt.lower(names[i])]
    ensures CodedAs(rt, t1, names[..i + 1], codes + [code])
    ensures t1.Keys == keys + LowerKeys(rt, names[..i + 1])
  {
    LowerKeysSnoc(rt, names, i);
    var ns, cs := names[..i + 1], codes + [code];
    forall k | 0 <= k < |ns| ensures rt.lower(ns[k]) in t1 && cs[k] == t1[rt.lower(ns[k])] {
      if k < i {
        assert ns[k] == names[..i][k];
      }
    }
  }

  /** `names.Select(Grammema.GetIndex).ToArray()`: the code of each name in
      turn, interning the names not seen before. */
  method InternAll(rt: Runtime, interner: Interner, names: seq<string>) returns (codes: seq<ushort>)
    requires interner.Valid()
    modifies interner
    ensures interner.Valid() && Submap(old(interner.table), interner.table)
    ensures interner.table.Keys == old(interner.table.Keys) + LowerKeys(rt, names)
    ensures CodedAs(rt, interner.table, names, codes)
  {
    codes := [];
    var i := 0;
    assert names[..0] == [];
    while i < |names|
      invariant 0 <= i <= |names|
      invariant interner.Valid() && Submap(old(interner.table), interner.table)
      invariant interner.table.Keys == old(interner.table.Keys) + LowerKeys(rt, names[..i])
      invariant CodedAs(rt, interner.table, names[..i], codes)
    {
      ghost var t0 := interner.table;
      var code := interner.GetIndex(rt, names[i]);
      InternStep(rt, old(interner.table.Keys), t0, interner.table, names, i, codes, code);
      codes := codes + [code];
      i := i + 1;
    }
    assert names[..i] == names;
  }
}
