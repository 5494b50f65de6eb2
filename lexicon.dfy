/** Lemmas and their forms: the nested classes `Lemm` and `Form` of
    Mophology/SentenceMorpher.cs:175-293. A dictionary line has the shape
    `WORD<TAB>ATTR[, ]ATTR...`; a lemma is a block of such lines whose first
    line gives the normal form. A lemma keeps its raw lines and parses them
    into forms on first use. */
module Lexicon {
  import opened Wrappers
  import opened Text
  import opened Grammema

  /** A dictionary line the engine can parse: `IndexOf('\t')` finds a tab. */
  predicate HasTab(line: string)
  {
    '\t' in line
  }

  /** A block a lemma can be built from: non-empty, every line with a tab. */
  predicate WellFormedBlock(lines: seq<string>)
  {
    |lines| > 0 && forall k | 0 <= k < |lines| :: HasTab(lines[k])
  }

  /** The text of a line before its first tab. */
  function FormWord(line: string): (w: string)
    requires HasTab(line)
    ensures '\t' !in w && |w| < |line| && line[|w|] == '\t'
  {
    line[..IndexOfAny(line, {'\t'})]
  }

  /** The text of a line after its first tab. */
  function FormAttrs(line: string): string
    requires HasTab(line)
  {
    line[IndexOfAny(line, {'\t'}) + 1..]
  }

  /** A line is its word, the tab, and its attribute text. */
  lemma LineShape(line: string)
    requires HasTab(line)
    ensures line == FormWord(line) + ['\t'] + FormAttrs(line)
  {
    var i := IndexOfAny(line, {'\t'});
    assert line == line[..i] + [line[i]] + line[i + 1..];
  }

  /** The attribute names of a line: none if the text after the tab is blank,
      otherwise every piece of it split on ',' and ' ' (empty pieces included,
      as `attrs.Split(',', ' ')` keeps them). */
  function FormNames(line: string): seq<string>
    requires HasTab(line)
  {
    var attrs := FormAttrs(line);
    if IsBlank(attrs) then [] else Split(attrs, {',', ' '})
  }

  /** The interner keys of a line's attributes. */
  function FormKeys(rt: Runtime, line: string): set<string>
    requires HasTab(line)
  {
    LowerKeys(rt, FormNames(line))
  }

  /** `Lemm.Word`: the upper-cased text before the first tab of the block's first line. */
  function LemmaWord(rt: Runtime, lines: seq<string>): string
    requires WellFormedBlock(lines)
  {
    rt.upper(FormWord(lines[0]))
  }

  /** The normal form is already upper-cased, and a word matches it,
      ignoring case, exactly when it matches the first line's word. */
  lemma LemmaWordMatches(rt: Runtime, lines: seq<string>, w: string)
    requires UpperIdempotent(rt) && WellFormedBlock(lines)
    ensures rt.upper(LemmaWord(rt, lines)) == LemmaWord(rt, lines)
    ensures EqualsIgnoreCase(rt, w, LemmaWord(rt, lines)) <==> EqualsIgnoreCase(rt, w, FormWord(lines[0]))
  {
    assert rt.upper(rt.upper(FormWord(lines[0]))) == rt.upper(FormWord(lines[0]));
  }

  /** `Form`: the text of a form and the codes of its attributes. */
  datatype Form = Form(word: string, grammemas: set<ushort>)

  /** The form a line parses to, given the interner's table once its names are in it. */
  function FormOf(rt: Runtime, t: map<string, ushort>, line: string): (f: Form)
    requires HasTab(line) && FormKeys(rt, line) <= t.Keys
    ensures f.word == FormWord(line)
  {
    Form(FormWord(line), Codes(t, FormKeys(rt, line)))
  }

  ghost predicate Interned(rt: Runtime, t: map<string, ushort>, lines: seq<string>)
  {
    forall k | 0 <= k < |lines| :: HasTab(lines[k]) && FormKeys(rt, lines[k]) <= t.Keys
  }

  function FormsOf(rt: Runtime, t: map<string, ushort>, lines: seq<string>): (fs: seq<Form>)
    requires Interned(rt, t, lines)
    ensures |fs| == |lines|
    ensures forall k | 0 <= k < |lines| :: fs[k] == FormOf(rt, t, lines[k])
  {
    seq(|lines|, k requires 0 <= k < |lines| => FormOf(rt, t, lines[k]))
  }

  lemma FormsOfSubmap(rt: Runtime, t1: map<string, ushort>, t2: map<string, ushort>, lines: seq<string>)
    requires Interned(rt, t1, lines) && Submap(t1, t2)
    ensures Interned(rt, t2, lines) && FormsOf(rt, t2, lines) == FormsOf(rt, t1, lines)
  {
    forall k | 0 <= k < |lines|
      ensures FormKeys(rt, lines[k]) <= t2.Keys && FormOf(rt, t2, lines[k]) == FormOf(rt, t1, lines[k])
    {
      CodesSubmap(t1, t2, FormKeys(rt, lines[k]));
    }
  }

  /** The position of the first set in `ks` that includes all of `q`, or
      `|ks|` when there is none. */
  function FirstMatch<T>(ks: seq<set<T>>, q: set<T>): (n: nat)
    ensures n <= |ks|
    ensures forall j | 0 <= j < n :: !(q <= ks[j])
    ensures n < |ks| ==> q <= ks[n]
  {
    if |ks| == 0 || q <= ks[0] then 0
    else 1 + FirstMatch(ks[1..], q)
  }

  /** Two searches whose sets match the same positions stop at the same one. */
  lemma FirstMatchSame<A, B>(ks: seq<set<A>>, p: set<A>, cs: seq<set<B>>, c: set<B>)
    requires |ks| == |cs| && forall k | 0 <= k < |ks| :: (p <= ks[k]) == (c <= cs[k])
    ensures FirstMatch(ks, p) == FirstMatch(cs, c)
  {
  }

  /** The code sets of a lemma's forms, in order. */
  function GrammemasOf(forms: seq<Form>): (gs: seq<set<ushort>>)
    ensures |gs| == |forms| && forall k | 0 <= k < |forms| :: gs[k] == forms[k].grammemas
  {
    seq(|forms|, k requires 0 <= k < |forms| => forms[k].grammemas)
  }

  /** The text of the first form, in order, whose codes include all of `q`. */
  function FirstSuperset(forms: seq<Form>, q: set<ushort>): (r: Option<string>)
    ensures r.None? <==> forall k | 0 <= k < |forms| :: !(q <= forms[k].grammemas)
    ensures forall k | 0 <= k < |forms| && q <= forms[k].grammemas
                       && (forall j | 0 <= j < k :: !(q <= forms[j].grammemas)) ::
              r == Some(forms[k].word)
  {
    var n := FirstMatch(GrammemasOf(forms), q);
    if n < |forms| then Some(forms[n].word) else None
  }

  /** The interner keys of each line of a block. */
  function KeysOf(rt: Runtime, lines: seq<string>): (ks: seq<set<string>>)
    requires forall k | 0 <= k < |lines| :: HasTab(lines[k])
    ensures |ks| == |lines| && forall k | 0 <= k < |lines| :: ks[k] == FormKeys(rt, lines[k])
  {
    seq(|lines|, k requires 0 <= k < |lines| => FormKeys(rt, lines[k]))
  }

  /** The union of a sequence of sets. */
  function UnionOf<T>(ks: seq<set<T>>): (u: set<T>)
    ensures forall k | 0 <= k < |ks| :: ks[k] <= u
    ensures forall x | x in u :: exists k | 0 <= k < |ks| :: x in ks[k]
  {
    if |ks| == 0 then {}
    else UnionOf(ks[..|ks| - 1]) + ks[|ks| - 1]
  }

  lemma UnionOfSnoc<T>(ks: seq<set<T>>, i: nat)
    requires i < |ks|
    ensures UnionOf(ks[..i + 1]) == UnionOf(ks[..i]) + ks[i]
  {
    assert ks[..i + 1][..i] == ks[..i];
  }

  /** The interner keys of every line of a block. */
  function BlockKeys(rt: Runtime, lines: seq<string>): set<string>
    requires forall k | 0 <= k < |lines| :: HasTab(lines[k])
  {
    UnionOf(KeysOf(rt, lines))
  }

  lemma BlockKeysSnoc(rt: Runtime, lines: seq<string>, i: nat)
    requires i < |lines| && forall k | 0 <= k < |lines| :: HasTab(lines[k])
    ensures BlockKeys(rt, lines[..i + 1]) == BlockKeys(rt, lines[..i]) + FormKeys(rt, lines[i])
  {
    var ks := KeysOf(rt, lines);
    assert KeysOf(rt, lines[..i + 1]) == ks[..i + 1];
    assert KeysOf(rt, lines[..i]) == ks[..i];
    UnionOfSnoc(ks, i);
  }

  /** The same search stated on the dictionary text: the word of the first
      line whose lower-cased attribute names include all of `q`, if any. */
  function FirstForm(rt: Runtime, lines: seq<string>, q: set<string>): Option<string>
    requires forall k | 0 <= k < |lines| :: HasTab(lines[k])
  {
    var n := FirstMatch(KeysOf(rt, lines), q);
    if n < |lines| then Some(FormWord(lines[n])) else None
  }

  /** Matching on codes is matching on attribute names, as long as the
      interner's codes are injective. */
  lemma FirstSupersetIsFirstForm(
      rt: Runtime, t: map<string, ushort>, lines: seq<string>, q: set<string>)
    requires Injective(t) && Interned(rt, t, lines) && q <= t.Keys
    ensures FirstSuperset(FormsOf(rt, t, lines), Codes(t, q)) == FirstForm(rt, lines, q)
  {
    var fs := FormsOf(rt, t, lines);
    var gs, ks := GrammemasOf(fs), KeysOf(rt, lines);
    forall k | 0 <= k < |lines| ensures (q <= ks[k]) == (Codes(t, q) <= gs[k]) {
      CodesSubsetIff(t, q, FormKeys(rt, lines[k]));
    }
    FirstMatchSame(ks, q, gs, Codes(t, q));
  }

  /** The constructor `Form(string line)` (Mophology/SentenceMorpher.cs:271-282):
      the word is the text before the first tab; the codes are those of the
      pieces after it, interned one by one, or none if that text is blank. */
  method NewForm(rt: Runtime, interner: Interner, line: string) returns (f: Form)
    requires HasTab(line) && interner.Valid()
    modifies interner
    ensures interner.Valid() && Submap(old(interner.table), interner.table)
    ensures interner.table.Keys == old(interner.table.Keys) + FormKeys(rt, line)
    ensures f == FormOf(rt, interner.table, line)
  {
    var tab := IndexOfAny(line, {'\t'});
    var word := line[..tab];
    var attrs := line[tab + 1..];
    var codes: set<ushort> := {};
    var names: seq<string> := [];
    if !IsBlank(attrs) {
      names := Split(attrs, {',', ' '});
      var cs := InternAll(rt, interner, names);
      CodedAsCodes(rt, interner.table, names, cs);
      codes := set g | g in cs;
    } else {
      assert LowerKeys(rt, names) == {};
    }
    assert names == FormNames(line);
    f := Form(word, codes);
  }

  /** One step of `NewForms`: the i-th line's form joins the forms, its keys the keys. */
  lemma NewFormsStep(rt: Runtime, keys: set<string>, t0: map<string, ushort>, t1: map<string, ushort>,
                     lines: seq<string>, i: nat, fs: seq<Form>, f: Form)
    requires i < |lines| && forall k | 0 <= k < |lines| :: HasTab(lines[k])
    requires t0.Keys == keys + BlockKeys(rt, lines[..i])
    requires Interned(rt, t0, lines[..i]) && fs == FormsOf(rt, t0, lines[..i])
    requires Submap(t0, t1) && t1.Keys == t0.Keys + FormKeys(rt, lines[i])
    requires f == FormOf(rt, t1, lines[i])
    ensures t1.Keys == keys + BlockKeys(rt, lines[..i + 1])
    ensures Interned(rt, t1, lines[..i + 1]) && fs + [f] == FormsOf(rt, t1, lines[..i + 1])
  {
    BlockKeysSnoc(rt, lines, i);
    FormsOfSubmap(rt, t0, t1, lines[..i]);
    FormsSnoc(rt, t1, lines, i, fs, f);
  }

  lemma FormsSnoc(rt: Runtime, t: map<string, ushort>, lines: seq<string>, i: nat, fs: seq<Form>, f: Form)
    requires i < |lines| && Interned(rt, t, lines[..i]) && fs == FormsOf(rt, t, lines[..i])
    requires HasTab(lines[i]) && FormKeys(rt, lines[i]) <= t.Keys && f == FormOf(rt, t, lines[i])
    ensures Interned(rt, t, lines[..i + 1]) && fs + [f] == FormsOf(rt, t, lines[..i + 1])
  {
    var ls := lines[..i + 1];
    assert forall k | 0 <= k < i :: ls[k] == lines[..i][k];
    assert ls[i] == lines[i];
  }

  /** `block.Select(line => new Form(line)).ToArray()`: the forms of the
      lines, in order, interning their names as it goes. */
  method NewForms(rt: Runtime, interner: Interner, lines: seq<string>) returns (fs: seq<Form>)
    requires interner.Valid() && forall k | 0 <= k < |lines| :: HasTab(lines[k])
    modifies interner
    ensures interner.Valid() && Submap(old(interner.table), interner.table)
    ensures interner.table.Keys == old(interner.table.Keys) + BlockKeys(rt, lines)
    ensures Interned(rt, interner.table, lines) && fs == FormsOf(rt, interner.table, lines)
  {
    fs := [];
    var i := 0;
    assert lines[..0] == [];
    while i < |lines|
      invariant 0 <= i <= |lines|
      invariant interner.Valid() && Submap(old(interner.table), interner.table)
      invariant interner.table.Keys == old(interner.table.Keys) + BlockKeys(rt, lines[..i])
      invariant Interned(rt, interner.table, lines[..i])
      invariant fs == FormsOf(rt, interner.table, lines[..i])
    {
      ghost var t0 := interner.table;
      var f := NewForm(rt, interner, lines[i]);
      NewFormsStep(rt, old(interner.table.Keys), t0, interner.table, lines, i, fs, f);
      fs := fs + [f];
      i := i + 1;
    }
    assert lines[..i] == lines;
  }

  /** `Lemm`: a lemma with its normal form, its position in the dictionary,
      and its forms, parsed lazily from the raw block. */
  class Lemm {
    /** `Word`: the upper-cased normal form */
    const word: string
    /** `Index`: the position of the lemma's block in the dictionary */
    const index: nat
    /** the block the lemma was built from, kept here after `block` is released */
    ghost const lines: seq<string>

    var block: seq<string>
    var initialized: bool
    var forms: seq<Form>

    /** Before initialisation the raw block is held; after it, the block is
        released and the forms are those of the block's lines, in order. */
    ghost predicate Valid(rt: Runtime, t: map<string, ushort>)
      reads this
    {
      && WellFormedBlock(lines)
      && word == LemmaWord(rt, lines)
      && if initialized then
           block == [] && Interned(rt, t, lines) && forms == FormsOf(rt, t, lines)
         else
           block == lines
    }

    /** `Lemm(List<string> block, int index)` (Mophology/SentenceMorpher.cs:196-203). */
    constructor (rt: Runtime, block: seq<string>, index: nat)
      requires WellFormedBlock(block)
      ensures this.lines == block && this.block == block && this.index == index
      ensures word == LemmaWord(rt, block) && !initialized
      ensures forall t :: Valid(rt, t)
    {
      this.lines := block;
      this.block := block;
      this.index := index;
      var first := block[0];
      word := rt.upper(first[..IndexOfAny(first, {'\t'})]);
      initialized := false;
      forms := [];
    }

    /** `GetHashCode`: the hash of the normal form. */
    function HashCode(rt: Runtime): int
    {
      rt.hash(word)
    }

    /** A word that equals the normal form ignoring case has the lemma's
        hash once upper-cased, so `MorphWord` looks in the right bucket. */
    lemma HashFindsWord(rt: Runtime, t: map<string, ushort>, w: string)
      requires Valid(rt, t) && UpperIdempotent(rt) && EqualsIgnoreCase(rt, w, word)
      ensures HashCode(rt) == rt.hash(rt.upper(w))
    {
      LemmaWordMatches(rt, lines, w);
    }

    /** A table that only grew keeps a lemma valid. */
    lemma ValidSubmap(rt: Runtime, t1: map<string, ushort>, t2: map<string, ushort>)
      requires Valid(rt, t1) && Submap(t1, t2)
      ensures Valid(rt, t2)
    {
      if initialized {
        FormsOfSubmap(rt, t1, t2, lines);
      }
    }

    /** `EnsureInitialized` (Mophology/SentenceMorpher.cs:249-258): on the
        first call, parse every line of the block into a form, in order, set
        `initialized` and release the block; on later calls, do nothing. */
    method EnsureInitialized(rt: Runtime, interner: Interner)
      requires Valid(rt, interner.table) && interner.Valid()
      modifies this, interner
      ensures Valid(rt, interner.table) && interner.Valid() && initialized
      ensures Submap(old(interner.table), interner.table)
      ensures old(initialized) ==> forms == old(forms) && unchanged(interner)
      ensures !old(initialized) ==> forms == FormsOf(rt, interner.table, lines) && block == []
      ensures !old(initialized) ==> interner.table.Keys == old(interner.table.Keys) + BlockKeys(rt, lines)
    {
      if initialized {
        return;
      }
      Materialize(rt, interner);
    }

    /** The first-call branch of `EnsureInitialized`. */
    method Materialize(rt: Runtime, interner: Interner)
      requires Valid(rt, interner.table) && interner.Valid() && !initialized
      modifies this, interner
      ensures Valid(rt, interner.table) && interner.Valid() && initialized
      ensures Submap(old(interner.table), interner.table)
      ensures forms == FormsOf(rt, interner.table, lines) && block == []
      ensures interner.table.Keys == old(interner.table.Keys) + BlockKeys(rt, lines)
    {
      var fs := NewForms(rt, interner, block);
      forms := fs;
      initialized := true;
      block := [];
    }

    /** `TryGetForm` (Mophology/SentenceMorpher.cs:214-236): initialise, then
        refuse a query whose word is not this lemma's normal form ignoring
        case (a lemma that only shares the hash bucket), else give the text of
        the first form whose codes include every requested code. */
    method TryGetForm(rt: Runtime, interner: Interner, toMorph: string, grammemas: seq<ushort>)
      returns (found: bool, textForm: string)
      requires Valid(rt, interner.table) && interner.Valid()
      modifies this, interner
      ensures Valid(rt, interner.table) && interner.Valid() && initialized
      ensures Submap(old(interner.table), interner.table)
      ensures old(initialized) ==> forms == old(forms) && unchanged(interner)
      ensures !old(initialized) ==> interner.table.Keys == old(interner.table.Keys) + BlockKeys(rt, lines)
      ensures forms == FormsOf(rt, interner.table, lines)
      ensures (if found then Some(textForm) else None)
           == (if EqualsIgnoreCase(rt, toMorph, word)
               then FirstSuperset(forms, set g | g in grammemas)
               else None)
      ensures !found ==> textForm == ""
    {
      EnsureInitialized(rt, interner);
      textForm := "";
      if rt.upper(toMorph) != rt.upper(word) {
        return false, textForm;
      }
      var r := ScanForms(forms, set g | g in grammemas);
      if r.Some? {
        return true, r.value;
      }
      return false, textForm;
    }
  }

  /** The scan loop of `TryGetForm`: the first form whose codes are a
      superset of `q`, with an early return. */
  method ScanForms(forms: seq<Form>, q: set<ushort>) returns (r: Option<string>)
    ensures r == FirstSuperset(forms, q)
  {
    var i := 0;
    while i < |forms|
      invariant 0 <= i <= |forms|
      invariant forall k | 0 <= k < i :: !(q <= forms[k].grammemas)
    {
      if q <= forms[i].grammemas {
        return Some(forms[i].word);
      }
      i := i + 1;
    }
    return None;
  }
}
