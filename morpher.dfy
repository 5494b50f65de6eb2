/** The engine, `SentenceMorpher` (Mophology/SentenceMorpher.cs:8-169): built
    once from a dictionary, it rewrites each word of a sentence that carries
    an attribute list `WORD{ATTR, ATTR}` into the first dictionary form of
    that word that has all the requested attributes.

    The reference behaviour is stated on the dictionary text (`MorphSpec`):
    it is what the engine answers while the interner's 16-bit codes are still
    injective, i.e. while at most 2^16 distinct attribute names were seen. */
module Morpher {
  import opened Wrappers
  import opened Text
  import opened Grammema
  import opened BlockParser
  import opened Lexicon
  import opened Tokenizer

  /** The characters that open and close an attribute list. */
  const Braces: set<char> := {'{', '}'}
  /** The characters that separate attribute names. */
  const AttrSeparators: set<char> := {',', ' '}

  /** A dictionary `Create` can load: every line that starts a block entry
      holds a tab (otherwise `IndexOf('\t')` is -1 and `Substring` throws). */
  predicate Parsable(rt: Runtime, lines: seq<string>)
  {
    forall l | l in lines && !IsDelimiter(rt, l) :: HasTab(l)
  }

  ghost predicate AllWellFormed(bs: seq<Block>)
  {
    forall k | 0 <= k < |bs| :: WellFormedBlock(bs[k])
  }

  /** Every block of a loadable dictionary can be made a lemma. */
  lemma BlocksOfParsable(rt: Runtime, lines: seq<string>)
    requires Parsable(rt, lines)
    ensures AllWellFormed(Blocks(rt, lines))
  {
    BlocksWellFormed(rt, lines);
  }

  /** What one lemma answers to a word and a set of attribute keys: nothing
      unless the word is its normal form ignoring case, else its first form
      having all the keys. */
  function TryForm(rt: Runtime, block: Block, word: string, q: set<string>): Option<string>
    requires WellFormedBlock(block)
  {
    if EqualsIgnoreCase(rt, word, LemmaWord(rt, block)) then FirstForm(rt, block, q) else None
  }

  /** The answer of the first lemma, in dictionary order, that has one. */
  function Scan(rt: Runtime, bs: seq<Block>, word: string, q: set<string>): Option<string>
    requires AllWellFormed(bs)
  {
    if |bs| == 0 then None
    else if TryForm(rt, bs[0], word, q).Some? then TryForm(rt, bs[0], word, q)
    else Scan(rt, bs[1..], word, q)
  }

  /** Scanning answers nothing exactly when no lemma does, and otherwise
      gives the answer of the first lemma that has one. */
  lemma {:induction false} ScanFirst(rt: Runtime, bs: seq<Block>, word: string, q: set<string>)
    requires AllWellFormed(bs)
    ensures Scan(rt, bs, word, q).None? <==> forall k | 0 <= k < |bs| :: TryForm(rt, bs[k], word, q).None?
    ensures Scan(rt, bs, word, q).Some? ==> exists k | 0 <= k < |bs| ::
              && Scan(rt, bs, word, q) == TryForm(rt, bs[k], word, q)
              && forall j | 0 <= j < k :: TryForm(rt, bs[j], word, q).None?
  {
    if |bs| > 0 && TryForm(rt, bs[0], word, q).None? {
      var tail := bs[1..];
      ScanFirst(rt, tail, word, q);
      if Scan(rt, tail, word, q).Some? {
        var k :| 0 <= k < |tail|
          && Scan(rt, tail, word, q) == TryForm(rt, tail[k], word, q)
          && forall j | 0 <= j < k :: TryForm(rt, tail[j], word, q).None?;
        assert tail[k] == bs[k + 1];
        forall j | 0 <= j < k + 1 ensures TryForm(rt, bs[j], word, q).None? {
          if j > 0 {
            assert bs[j] == tail[j - 1];
          }
        }
      } else {
        forall j | 0 <= j < |bs| ensures TryForm(rt, bs[j], word, q).None? {
          if j > 0 {
            assert bs[j] == tail[j - 1];
          }
        }
      }
    }
  }

  /** The lemmas whose normal form hashes to `h`, in dictionary order. */
  function Bucket(rt: Runtime, bs: seq<Block>, h: int): (b: seq<Block>)
    requires AllWellFormed(bs)
    ensures AllWellFormed(b)
    ensures forall k | 0 <= k < |b| :: b[k] in bs
  {
    if |bs| == 0 then []
    else (if rt.hash(LemmaWord(rt, bs[0])) == h then [bs[0]] else []) + Bucket(rt, bs[1..], h)
  }

  /** The lookup the engine makes: scan the bucket of the word's upper-cased hash. */
  function Lookup(rt: Runtime, bs: seq<Block>, word: string, q: set<string>): Option<string>
    requires AllWellFormed(bs)
  {
    Scan(rt, Bucket(rt, bs, rt.hash(rt.upper(word))), word, q)
  }

  /** Looking in one hash bucket finds what scanning the whole dictionary
      finds, whatever the hash function, provided upper-casing is idempotent:
      a lemma outside the bucket cannot have the word as its normal form, and
      one inside with another normal form answers nothing. */
  lemma {:induction false} LookupIsScan(rt: Runtime, bs: seq<Block>, word: string, q: set<string>)
    requires UpperIdempotent(rt) && AllWellFormed(bs)
    ensures Lookup(rt, bs, word, q) == Scan(rt, bs, word, q)
  {
    if |bs| > 0 {
      var h := rt.hash(rt.upper(word));
      LookupIsScan(rt, bs[1..], word, q);
      var rest := Bucket(rt, bs[1..], h);
      if rt.hash(LemmaWord(rt, bs[0])) == h {
        var b := [bs[0]] + rest;
        assert Bucket(rt, bs, h) == b;
        assert b[0] == bs[0] && b[1..] == rest;
      } else {
        var w := LemmaWord(rt, bs[0]);
        assert rt.upper(w) == w;
        assert !EqualsIgnoreCase(rt, word, w);
        assert Bucket(rt, bs, h) == rest;
      }
    }
  }

  /** The attribute names a token asks for: the non-blank pieces, split on
      ',' and ' ', of the text between its first brace and the next one. */
  function RequestedNames(token: string): seq<string>
    requires |Split(token, Braces)| > 1
  {
    NonBlank(Split(Split(token, Braces)[1], AttrSeparators))
  }

  /** `MorphWord`: a token without braces, or with no attribute names, or
      whose lookup answers nothing, becomes its text before the first brace;
      otherwise it becomes the form found. */
  function MorphWordSpec(rt: Runtime, bs: seq<Block>, token: string): string
    requires AllWellFormed(bs)
  {
    var content := Split(token, Braces);
    if |content| == 1 then content[0]
    else
      var names := RequestedNames(token);
      if |names| == 0 then content[0]
      else
        match Lookup(rt, bs, content[0], LowerKeys(rt, names))
        case Some(w) => w
        case None => content[0]
  }

  /** The steps of `MorphWord` for a token with a brace, against `MorphWordSpec`. */
  lemma AttributedWord(rt: Runtime, bs: seq<Block>, word: string, content: seq<string>, names: seq<string>)
    requires AllWellFormed(bs) && content == Split(word, Braces) && |content| > 1
    requires names == NonBlank(Split(content[1], AttrSeparators))
    ensures names == RequestedNames(word) && RequestedKeys(rt, word) == LowerKeys(rt, names)
    ensures |names| == 0 ==> MorphWordSpec(rt, bs, word) == content[0]
    ensures |names| > 0 ==>
              (var f := Lookup(rt, bs, content[0], LowerKeys(rt, names));
               MorphWordSpec(rt, bs, word) == if f.Some? then f.value else content[0])
  {
  }

  /** Growth in two steps stays within the union of what each step may add. */
  lemma GrowthWithin(k0: set<string>, k1: set<string>, k2: set<string>, d: set<string>, q: set<string>)
    requires k1 == k0 + q && k2 <= k1 + d
    ensures k2 <= k0 + d + q
  {
  }

  /** `TryGetForm` on one lemma, against the lemma's answer on its dictionary
      text, with the names it may add to the interner bounded by `d`. */
  method AskLemm(rt: Runtime, interner: Interner, l: Lemm, toMorph: string, grammemas: seq<ushort>,
                 ghost q: set<string>, ghost d: set<string>)
    returns (found: bool, morphed: string)
    requires l.Valid(rt, interner.table) && interner.Valid()
    requires (forall k | 0 <= k < |l.lines| :: HasTab(l.lines[k])) && BlockKeys(rt, l.lines) <= d
    requires q <= interner.table.Keys && (set g | g in grammemas) == Codes(interner.table, q)
    modifies l, interner
    ensures l.Valid(rt, interner.table) && interner.Valid() && Submap(old(interner.table), interner.table)
    ensures interner.table.Keys <= old(interner.table.Keys) + d
    ensures |interner.table| <= Capacity ==>
              (if found then Some(morphed) else None) == TryForm(rt, l.lines, toMorph, q)
  {
    ghost var t0 := interner.table;
    found, morphed := l.TryGetForm(rt, interner, toMorph, grammemas);
    CodesSubmap(t0, interner.table, q);
    if |interner.table| <= Capacity {
      FirstSupersetIsFirstForm(rt, interner.table, l.lines, q);
    }
  }

  /** Every token, rewritten. */
  function MorphWords(rt: Runtime, bs: seq<Block>, tokens: seq<string>): (ws: seq<string>)
    requires AllWellFormed(bs)
    ensures |ws| == |tokens|
  {
    if |tokens| == 0 then []
    else MorphWords(rt, bs, tokens[..|tokens| - 1]) + [MorphWordSpec(rt, bs, tokens[|tokens| - 1])]
  }

  /** The k-th rewritten token is the k-th token, rewritten. */
  lemma {:induction false} MorphWordsAt(rt: Runtime, bs: seq<Block>, tokens: seq<string>, k: nat)
    requires AllWellFormed(bs) && k < |tokens|
    ensures MorphWords(rt, bs, tokens)[k] == MorphWordSpec(rt, bs, tokens[k])
  {
    var n := |tokens| - 1;
    if k < n {
      MorphWordsAt(rt, bs, tokens[..n], k);
    }
  }

  lemma MorphWordsSnoc(rt: Runtime, bs: seq<Block>, tokens: seq<string>, i: nat)
    requires AllWellFormed(bs) && i < |tokens|
    ensures MorphWords(rt, bs, tokens[..i + 1])
         == MorphWords(rt, bs, tokens[..i]) + [MorphWordSpec(rt, bs, tokens[i])]
  {
    assert tokens[..i + 1][..i] == tokens[..i];
  }

  /** `Morph`: the rewritten tokens of the sentence, joined by single spaces. */
  function MorphSpec(rt: Runtime, bs: seq<Block>, sentence: string): string
    requires AllWellFormed(bs)
  {
    Join(' ', MorphWords(rt, bs, Tokens(sentence)))
  }

  /** The interner keys of every line of the dictionary: all the names that
      initialising its lemmas can enter. */
  function DictionaryKeys(rt: Runtime, bs: seq<Block>): set<string>
    requires AllWellFormed(bs)
  {
    UnionOf(seq(|bs|, k requires 0 <= k < |bs| => BlockKeys(rt, bs[k])))
  }

  lemma BlockKeysInDictionary(rt: Runtime, bs: seq<Block>, k: nat)
    requires AllWellFormed(bs) && k < |bs|
    ensures BlockKeys(rt, bs[k]) <= DictionaryKeys(rt, bs)
  {
    var ks := seq(|bs|, k requires 0 <= k < |bs| => BlockKeys(rt, bs[k]));
    assert ks[k] == BlockKeys(rt, bs[k]);
  }

  /** The interner keys of the attribute names a token asks for. */
  function RequestedKeys(rt: Runtime, token: string): set<string>
  {
    if |Split(token, Braces)| > 1 then LowerKeys(rt, RequestedNames(token)) else {}
  }

  /** The interner keys every token of a sentence asks for. */
  function TokensKeys(rt: Runtime, tokens: seq<string>): set<string>
  {
    UnionOf(seq(|tokens|, k requires 0 <= k < |tokens| => RequestedKeys(rt, tokens[k])))
  }

  lemma TokensKeysSnoc(rt: Runtime, tokens: seq<string>, i: nat)
    requires i < |tokens|
    ensures TokensKeys(rt, tokens[..i + 1]) == TokensKeys(rt, tokens[..i]) + RequestedKeys(rt, tokens[i])
  {
    var ks := seq(|tokens|, k requires 0 <= k < |tokens| => RequestedKeys(rt, tokens[k]));
    assert seq(i + 1, k requires 0 <= k < i + 1 => RequestedKeys(rt, tokens[..i + 1][k])) == ks[..i + 1];
    assert seq(i, k requires 0 <= k < i => RequestedKeys(rt, tokens[..i][k])) == ks[..i];
    UnionOfSnoc(ks, i);
  }

  /** A table whose keys lie within a set of at most 2^16 names fits the code space. */
  lemma FitsCodes(t: map<string, ushort>, bound: set<string>)
    requires t.Keys <= bound && |bound| <= Capacity
    ensures |t| <= Capacity
  {
    assert bound == t.Keys + (bound - t.Keys);
    assert |bound| == |t.Keys| + |bound - t.Keys|;
  }

  /** A token without braces is returned as it is. */
  lemma MorphWordPlain(rt: Runtime, bs: seq<Block>, token: string)
    requires AllWellFormed(bs) && forall k | 0 <= k < |token| :: token[k] !in Braces
    ensures MorphWordSpec(rt, bs, token) == token
  {
    assert IndexOfAny(token, Braces) == |token|;
    assert token[..|token|] == token;
  }

  /** A token with braces is either rewritten into a form that some lemma
      with the token's normal form (ignoring case) has, with every requested
      attribute, or cut back to its text before the first brace. */
  lemma MorphWordSound(rt: Runtime, bs: seq<Block>, token: string)
    requires AllWellFormed(bs) && |Split(token, Braces)| > 1
    ensures var w := Split(token, Braces)[0];
      || MorphWordSpec(rt, bs, token) == w
      || exists k, j | 0 <= k < |bs| && 0 <= j < |bs[k]| ::
           && EqualsIgnoreCase(rt, w, LemmaWord(rt, bs[k]))
           && LowerKeys(rt, RequestedNames(token)) <= FormKeys(rt, bs[k][j])
           && MorphWordSpec(rt, bs, token) == FormWord(bs[k][j])
  {
    var w := Split(token, Braces)[0];
    var names := RequestedNames(token);
    if |names| > 0 {
      var q := LowerKeys(rt, names);
      var r := Lookup(rt, bs, w, q);
      if r.Some? {
        LookupSound(rt, bs, w, q);
      }
    }
  }

  /** What the lookup finds is a form of a lemma whose normal form is the
      word ignoring case, and that form has every requested key. */
  lemma LookupSound(rt: Runtime, bs: seq<Block>, w: string, q: set<string>)
    requires AllWellFormed(bs) && Lookup(rt, bs, w, q).Some?
    ensures exists k, j | 0 <= k < |bs| && 0 <= j < |bs[k]| ::
              && EqualsIgnoreCase(rt, w, LemmaWord(rt, bs[k]))
              && q <= FormKeys(rt, bs[k][j])
              && Lookup(rt, bs, w, q).value == FormWord(bs[k][j])
  {
    var b := Bucket(rt, bs, rt.hash(rt.upper(w)));
    var r := Scan(rt, b, w, q);
    ScanFirst(rt, b, w, q);
    var i :| 0 <= i < |b| && r == TryForm(rt, b[i], w, q);
    assert EqualsIgnoreCase(rt, w, LemmaWord(rt, b[i]));
    var k :| 0 <= k < |bs| && bs[k] == b[i];
    var j :| 0 <= j < |bs[k]| && q <= FormKeys(rt, bs[k][j]) && r.value == FormWord(bs[k][j]);
  }

  /** The pieces of a word with one attribute, `word{attr}`. */
  lemma OneAttrPieces(w: string, a: string)
    requires forall k | 0 <= k < |w| :: w[k] !in Braces
    requires forall k | 0 <= k < |a| :: a[k] !in Braces
    ensures Split(w + "{" + a + "}", Braces) == [w, a, ""]
  {
    assert w + "{" + a + "}" == w + ['{'] + (a + ['}'] + []);
    SplitAfter(w, '{', a + ['}'] + [], Braces);
    SplitAfter(a, '}', [], Braces);
    SplitNone([], Braces);
  }

  /** A word with one attribute, `word{attr}` (as `KOT{dat}`), becomes the
      first form with that attribute of a lemma whose normal form is the
      word ignoring case, or the bare word when no lemma has one. */
  lemma MorphWordOneAttr(rt: Runtime, bs: seq<Block>, w: string, a: string)
    requires AllWellFormed(bs) && !IsBlank(a)
    requires forall k | 0 <= k < |w| :: w[k] !in Braces
    requires forall k | 0 <= k < |a| :: a[k] !in Braces && a[k] !in AttrSeparators
    ensures var f := Lookup(rt, bs, w, {rt.lower(a)});
      MorphWordSpec(rt, bs, w + "{" + a + "}") == if f.Some? then f.value else w
  {
    OneAttrPieces(w, a);
    SplitNone(a, AttrSeparators);
    assert NonBlank([a]) == [a];
    assert LowerKeys(rt, [a]) == {rt.lower(a)};
  }

  /** An empty attribute list is dropped: `word{}` becomes `word`. */
  lemma MorphWordEmptyBraces(rt: Runtime, bs: seq<Block>, word: string)
    requires AllWellFormed(bs) && forall k | 0 <= k < |word| :: word[k] !in Braces
    ensures MorphWordSpec(rt, bs, word + "{}") == word
  {
    var token := word + "{}";
    assert forall k | 0 <= k < |word| :: token[k] == word[k];
    assert token[|word|] == '{';
    assert IndexOfAny(token, Braces) == |word|;
    assert token[..|word|] == word;
    assert token[|word| + 1..] == "}";
    assert IndexOfAny("}", Braces) == 0;
    assert Split(token, Braces)[1] == "";
    assert Split("", AttrSeparators) == [""];
    assert IsBlank("");
  }

  /** A sentence whose rewritten words hold no space splits back, on ' ',
      into exactly those words: one space between words, none around. */
  lemma MorphSplitsIntoWords(rt: Runtime, bs: seq<Block>, sentence: string)
    requires AllWellFormed(bs) && |Tokens(sentence)| >= 1
    requires forall k | 0 <= k < |Tokens(sentence)| :: ' ' !in MorphWordSpec(rt, bs, Tokens(sentence)[k])
    ensures Split(MorphSpec(rt, bs, sentence), {' '}) == MorphWords(rt, bs, Tokens(sentence))
  {
    var ws := MorphWords(rt, bs, Tokens(sentence));
    assert forall j, k | 0 <= j < |ws| && 0 <= k < |ws[j]| :: ws[j][k] != ' ' by {
      forall j, k | 0 <= j < |ws| && 0 <= k < |ws[j]| ensures ws[j][k] != ' ' {
        MorphWordsAt(rt, bs, Tokens(sentence), j);
        assert ws[j][k] in ws[j];
      }
    }
    SplitJoin(' ', ws);
  }

  /** The lemmas among `ls` whose hash is `h`, in order. */
  function InBucket(rt: Runtime, ls: seq<Lemm>, h: int): (b: seq<Lemm>)
    ensures forall x | x in b :: x in ls && x.HashCode(rt) == h
  {
    if |ls| == 0 then []
    else (if ls[0].HashCode(rt) == h then [ls[0]] else []) + InBucket(rt, ls[1..], h)
  }

  lemma {:induction false} InBucketSnoc(rt: Runtime, ls: seq<Lemm>, l: Lemm, h: int)
    ensures InBucket(rt, ls + [l], h) == InBucket(rt, ls, h) + (if l.HashCode(rt) == h then [l] else [])
  {
    if |ls| == 0 {
      assert ls + [l] == [l];
      assert [l][1..] == [];
    } else {
      assert (ls + [l])[1..] == ls[1..] + [l];
      InBucketSnoc(rt, ls[1..], l, h);
    }
  }

  ghost predicate IndexAscending(ls: seq<Lemm>)
  {
    forall i, j | 0 <= i < j < |ls| :: ls[i].index < ls[j].index
  }

  /** A bucket keeps the order of its lemmas' indexes (the `comparer` of
      Mophology/SentenceMorpher.cs:62). */
  lemma {:induction false} InBucketAscending(rt: Runtime, ls: seq<Lemm>, h: int)
    requires IndexAscending(ls)
    ensures IndexAscending(InBucket(rt, ls, h))
  {
    if |ls| > 0 {
      var tail := ls[1..];
      assert IndexAscending(tail) by {
        forall i, j | 0 <= i < j < |tail| ensures tail[i].index < tail[j].index {
          assert tail[i] == ls[i + 1] && tail[j] == ls[j + 1];
        }
      }
      InBucketAscending(rt, tail, h);
      var rest := InBucket(rt, tail, h);
      forall x | x in rest ensures ls[0].index < x.index {
        var m :| 0 <= m < |tail| && tail[m] == x;
        assert ls[m + 1] == x;
      }
      if ls[0].HashCode(rt) == h {
        var b := [ls[0]] + rest;
        assert InBucket(rt, ls, h) == b;
        forall i, j | 0 <= i < j < |b| ensures b[i].index < b[j].index {
          assert b[j] == rest[j - 1] && b[j] in rest;
          if i > 0 {
            assert b[i] == rest[i - 1];
          }
        }
      } else {
        assert InBucket(rt, ls, h) == rest;
      }
    }
  }

  /** The hash table files every lemma in its bucket, and each bucket holds
      exactly the lemmas of its hash, in order. */
  ghost predicate Indexed(rt: Runtime, lemms: map<int, seq<Lemm>>, all: seq<Lemm>)
  {
    && (forall h | h in lemms :: lemms[h] == InBucket(rt, all, h))
    && (forall k | 0 <= k < |all| :: all[k].HashCode(rt) in lemms)
  }

  /** Filing one more lemma after the bucket's others keeps the table indexed. */
  lemma IndexedSnoc(rt: Runtime, lemms: map<int, seq<Lemm>>, all: seq<Lemm>, lemm: Lemm)
    requires Indexed(rt, lemms, all)
    ensures var h := lemm.HashCode(rt);
      Indexed(rt, lemms[h := if h in lemms then lemms[h] + [lemm] else [lemm]], all + [lemm])
  {
    var h := lemm.HashCode(rt);
    forall g ensures InBucket(rt, all + [lemm], g)
                  == InBucket(rt, all, g) + (if h == g then [lemm] else []) {
      InBucketSnoc(rt, all, lemm, g);
    }
    if h !in lemms {
      IndexedMissing(rt, lemms, all, h);
    }
    var all' := all + [lemm];
    forall k | 0 <= k < |all'| ensures all'[k].HashCode(rt) in lemms[h := if h in lemms then lemms[h] + [lemm] else [lemm]] {
      if k < |all| {
        assert all'[k] == all[k];
      }
    }
  }

  /** A hash that no lemma has has an empty bucket. */
  lemma IndexedMissing(rt: Runtime, lemms: map<int, seq<Lemm>>, all: seq<Lemm>, h: int)
    requires Indexed(rt, lemms, all) && h !in lemms
    ensures InBucket(rt, all, h) == []
  {
    InBucketEmpty(rt, all, h);
  }

  lemma {:induction false} InBucketEmpty(rt: Runtime, ls: seq<Lemm>, h: int)
    requires forall k | 0 <= k < |ls| :: ls[k].HashCode(rt) != h
    ensures InBucket(rt, ls, h) == []
  {
    if |ls| > 0 {
      InBucketEmpty(rt, ls[1..], h);
    }
  }

  ghost function LinesOf(ls: seq<Lemm>): (bs: seq<Block>)
    ensures |bs| == |ls| && forall k | 0 <= k < |ls| :: bs[k] == ls[k].lines
  {
    seq(|ls|, k requires 0 <= k < |ls| => ls[k].lines)
  }

  /** One step of the bucket loop: the scan of the lemmas from i on. */
  lemma ScanLinesStep(rt: Runtime, ls: seq<Lemm>, i: nat, word: string, q: set<string>)
    requires i < |ls| && AllWellFormed(LinesOf(ls))
    ensures AllWellFormed(LinesOf(ls[i..])) && AllWellFormed(LinesOf(ls[i + 1..]))
    ensures Scan(rt, LinesOf(ls[i..]), word, q)
         == if TryForm(rt, ls[i].lines, word, q).Some? then TryForm(rt, ls[i].lines, word, q)
            else Scan(rt, LinesOf(ls[i + 1..]), word, q)
  {
    var rest := LinesOf(ls[i..]);
    assert rest[0] == ls[i].lines;
    assert rest[1..] == LinesOf(ls[i + 1..]);
  }

  /** The lemma objects of a hash bucket hold the blocks of `Bucket`. */
  lemma {:induction false} BucketLines(rt: Runtime, ls: seq<Lemm>, bs: seq<Block>, h: int)
    requires |ls| == |bs| && AllWellFormed(bs)
    requires forall k | 0 <= k < |ls| :: ls[k].lines == bs[k] && ls[k].word == LemmaWord(rt, bs[k])
    ensures LinesOf(InBucket(rt, ls, h)) == Bucket(rt, bs, h)
  {
    if |ls| > 0 {
      BucketLines(rt, ls[1..], bs[1..], h);
      var head := if ls[0].HashCode(rt) == h then [ls[0]] else [];
      var rest := InBucket(rt, ls[1..], h);
      assert InBucket(rt, ls, h) == head + rest;
      LinesOfAppend(head, rest);
      assert LinesOf(head) == if rt.hash(LemmaWord(rt, bs[0])) == h then [bs[0]] else [];
    }
  }

  lemma LinesOfAppend(a: seq<Lemm>, b: seq<Lemm>)
    ensures LinesOf(a + b) == LinesOf(a) + LinesOf(b)
  {
    assert forall k | 0 <= k < |a + b| :: (a + b)[k] == if k < |a| then a[k] else b[k - |a|];
  }

  class SentenceMorpher {
    const rt: Runtime
    /** the attribute interner the engine's lemmas share */
    const interner: Interner
    /** `lemms`: the lemmas by the hash of their normal form, each bucket in dictionary order */
    const lemms: map<int, seq<Lemm>>
    /** the dictionary's blocks, one per lemma */
    ghost const blocks: seq<Block>
    /** every lemma, in dictionary order */
    ghost const all: seq<Lemm>
    ghost const Repr: set<object>

    /** Lemma k holds block k; each bucket holds exactly the lemmas of its
        hash, in dictionary order; every lemma is in its bucket. */
    ghost predicate Valid()
      reads Repr
    {
      && interner in Repr
      && (forall l | l in all :: l in Repr)
      && |all| == |blocks| && AllWellFormed(blocks)
      && interner.Valid()
      && (forall k | 0 <= k < |all| ::
            && all[k].index == k && all[k].lines == blocks[k]
            && all[k].Valid(rt, interner.table))
      && Indexed(rt, lemms, all)
    }

    /** The private constructor `SentenceMorpher(lemms)`. */
    constructor (rt: Runtime, interner: Interner, lemms: map<int, seq<Lemm>>,
                 ghost all: seq<Lemm>, ghost blocks: seq<Block>)
      ensures this.rt == rt && this.interner == interner && this.lemms == lemms
      ensures this.all == all && this.blocks == blocks
      ensures Repr == {interner as object} + set k | 0 <= k < |all| :: all[k] as object
    {
      this.rt := rt;
      this.interner := interner;
      this.lemms := lemms;
      this.all := all;
      this.blocks := blocks;
      Repr := {interner as object} + set k | 0 <= k < |all| :: all[k] as object;
    }

    /** `Create` (Mophology/SentenceMorpher.cs:17-57): cut the dictionary into
        blocks, make lemma k of block k, and file each lemma in the bucket of
        its hash, after the lemmas filed there before it. */
    static method Create(rt: Runtime, interner: Interner, dictionaryLines: seq<string>)
      returns (m: SentenceMorpher)
      requires interner.Valid() && Parsable(rt, dictionaryLines)
      ensures m.Valid() && m.rt == rt && m.interner == interner
      ensures m.blocks == Blocks(rt, dictionaryLines)
      ensures fresh(m.Repr - {interner})
    {
      var blocks := SplitBlocks(rt, dictionaryLines);
      BlocksOfParsable(rt, dictionaryLines);
      var lemms, all := FileLemms(rt, blocks, interner.table);
      m := new SentenceMorpher(rt, interner, lemms, all, blocks);
    }

    /** The lemma loop of `Create`: make lemma k of block k and file it in
        the bucket of its hash, after the lemmas filed there before it. */
    static method FileLemms(rt: Runtime, blocks: seq<Block>, ghost t: map<string, ushort>)
      returns (lemms: map<int, seq<Lemm>>, ghost all: seq<Lemm>)
      requires AllWellFormed(blocks)
      ensures |all| == |blocks| && Indexed(rt, lemms, all)
      ensures forall k | 0 <= k < |all| :: fresh(all[k])
      ensures forall k | 0 <= k < |all| ::
                all[k].index == k && all[k].lines == blocks[k] && all[k].Valid(rt, t)
    {
      lemms := map[];
      all := [];
      var index := 0;
      while index < |blocks|
        invariant 0 <= index <= |blocks| && |all| == index
        invariant forall k | 0 <= k < index :: fresh(all[k])
        invariant forall k | 0 <= k < index ::
                    all[k].index == k && all[k].lines == blocks[k] && all[k].Valid(rt, t)
        invariant Indexed(rt, lemms, all)
      {
        var lemm := new Lemm(rt, blocks[index], index);
        var lemmHash := lemm.HashCode(rt);
        IndexedSnoc(rt, lemms, all, lemm);
        if lemmHash in lemms {
          lemms := lemms[lemmHash := lemms[lemmHash] + [lemm]];
        } else {
          lemms := lemms[lemmHash := [lemm]];
        }
        all := all + [lemm];
        index := index + 1;
      }
    }

    /** Each bucket lists its lemmas in dictionary order. */
    lemma BucketsInOrder()
      requires Valid()
      ensures forall h | h in lemms :: IndexAscending(lemms[h])
    {
      forall h | h in lemms ensures IndexAscending(lemms[h]) {
        InBucketAscending(rt, all, h);
      }
    }

    /** A lemma that the interner's growth has not touched stays valid. */
    lemma LemmsStayValid(t0: map<string, ushort>, changed: object?)
      requires Submap(t0, interner.table)
      requires forall k | 0 <= k < |all| && all[k] != changed :: all[k].Valid(rt, t0)
      ensures forall k | 0 <= k < |all| && all[k] != changed :: all[k].Valid(rt, interner.table)
    {
      forall k | 0 <= k < |all| && all[k] != changed ensures all[k].Valid(rt, interner.table) {
        all[k].ValidSubmap(rt, t0, interner.table);
      }
    }

    /** The names a lemma of the engine can intern are names of the dictionary. */
    lemma LemmKeysInDictionary(l: Lemm)
      requires Valid() && l in all
      ensures l.index < |all| && all[l.index] == l && l.Valid(rt, interner.table)
      ensures AllWellFormed(blocks) && l.lines in blocks
      ensures forall k | 0 <= k < |l.lines| :: HasTab(l.lines[k])
      ensures BlockKeys(rt, l.lines) <= DictionaryKeys(rt, blocks)
    {
      var k :| 0 <= k < |all| && all[k] == l;
      BlockKeysInDictionary(rt, blocks, k);
    }

    /** One `TryGetForm` call on a lemma of the engine. While the codes are
        injective, its answer is the lemma's answer on the dictionary text. */
    method Consult(l: Lemm, toMorph: string, grammemas: seq<ushort>, ghost q: set<string>)
      returns (found: bool, morphed: string)
      requires Valid() && l in all
      requires q <= interner.table.Keys && (set g | g in grammemas) == Codes(interner.table, q)
      modifies l, interner
      ensures Valid() && Submap(old(interner.table), interner.table)
      ensures interner.table.Keys <= old(interner.table.Keys) + DictionaryKeys(rt, blocks)
      ensures |interner.table| <= Capacity ==>
                (if found then Some(morphed) else None) == TryForm(rt, l.lines, toMorph, q)
    {
      ghost var t0 := interner.table;
      LemmKeysInDictionary(l);
      found, morphed := AskLemm(rt, interner, l, toMorph, grammemas, q, DictionaryKeys(rt, blocks));
      LemmsStayValid(t0, l);
    }

    /** The hash lookup of `MorphWord`: the bucket of the upper-cased word's
        hash, if there is one, scanned in dictionary order. */
    method FindForm(toMorph: string, grammemas: seq<ushort>, ghost q: set<string>)
      returns (r: Option<string>)
      requires Valid()
      requires q <= interner.table.Keys && (set g | g in grammemas) == Codes(interner.table, q)
      modifies Repr
      ensures Valid() && Submap(old(interner.table), interner.table)
      ensures interner.table.Keys <= old(interner.table.Keys) + DictionaryKeys(rt, blocks)
      ensures |interner.table| <= Capacity ==> r == Lookup(rt, blocks, toMorph, q)
    {
      var hash := rt.hash(rt.upper(toMorph));
      BucketLines(rt, all, blocks, hash);
      if hash !in lemms {
        IndexedMissing(rt, lemms, all, hash);
        return None;
      }
      r := ScanBucket(lemms[hash], toMorph, grammemas, q);
    }

    /** The bucket loop of `MorphWord`: ask the bucket's lemmas in turn and
        stop at the first one that has a form with every requested code. */
    method ScanBucket(bucket: seq<Lemm>, toMorph: string, grammemas: seq<ushort>, ghost q: set<string>)
      returns (r: Option<string>)
      requires Valid() && (forall l | l in bucket :: l in all) && AllWellFormed(LinesOf(bucket))
      requires q <= interner.table.Keys && (set g | g in grammemas) == Codes(interner.table, q)
      modifies Repr
      ensures Valid() && Submap(old(interner.table), interner.table)
      ensures interner.table.Keys <= old(interner.table.Keys) + DictionaryKeys(rt, blocks)
      ensures |interner.table| <= Capacity ==> r == Scan(rt, LinesOf(bucket), toMorph, q)
    {
      assert bucket[0..] == bucket;
      var i := 0;
      while i < |bucket|
        invariant 0 <= i <= |bucket|
        invariant Valid() && Submap(old(interner.table), interner.table)
        invariant interner.table.Keys <= old(interner.table.Keys) + DictionaryKeys(rt, blocks)
        invariant q <= interner.table.Keys && (set g | g in grammemas) == Codes(interner.table, q)
        invariant AllWellFormed(LinesOf(bucket[i..]))
        invariant |interner.table| <= Capacity ==>
                    Scan(rt, LinesOf(bucket), toMorph, q) == Scan(rt, LinesOf(bucket[i..]), toMorph, q)
      {
        ghost var t1 := interner.table;
        assert bucket[i] in bucket;
        var found, morphed := Consult(bucket[i], toMorph, grammemas, q);
        CodesSubmap(t1, interner.table, q);
        SubmapSize(t1, interner.table);
        ScanLinesStep(rt, bucket, i, toMorph, q);
        if found {
          return Some(morphed);
        }
        i := i + 1;
      }
      return None;
    }

    /** `MorphWord` (Mophology/SentenceMorpher.cs:147-169). */
    method MorphWord(word: string) returns (r: string)
      requires Valid()
      modifies Repr
      ensures Valid() && Submap(old(interner.table), interner.table)
      ensures interner.table.Keys <= old(interner.table.Keys) + DictionaryKeys(rt, blocks) + RequestedKeys(rt, word)
      ensures |interner.table| <= Capacity ==> r == MorphWordSpec(rt, blocks, word)
      ensures |old(interner.table.Keys) + DictionaryKeys(rt, blocks) + RequestedKeys(rt, word)| <= Capacity ==>
                r == MorphWordSpec(rt, blocks, word)
    {
      var content := Split(word, Braces);
      if |content| == 1 {
        return content[0];
      }
      r := MorphAttributed(word, content);
      ghost var bound := old(interner.table.Keys) + DictionaryKeys(rt, blocks) + RequestedKeys(rt, word);
      if |bound| <= Capacity {
        FitsCodes(interner.table, bound);
      }
    }

    /** The `GetIndex` loop of `MorphWord`: the codes of the requested names,
        each name added to the interner if it is new. */
    method InternRequested(names: seq<string>) returns (grammemas: seq<ushort>)
      requires Valid()
      modifies interner
      ensures Valid() && Submap(old(interner.table), interner.table)
      ensures interner.table.Keys == old(interner.table.Keys) + LowerKeys(rt, names)
      ensures CodedAs(rt, interner.table, names, grammemas)
      ensures (set g | g in grammemas) == Codes(interner.table, LowerKeys(rt, names))
    {
      ghost var t0 := interner.table;
      grammemas := InternAll(rt, interner, names);
      LemmsStayValid(t0, null);
      CodedAsCodes(rt, interner.table, names, grammemas);
    }

    /** `MorphWord` for a token with a brace: intern the requested names,
        then look the word up unless no name was requested. */
    method MorphAttributed(word: string, content: seq<string>) returns (r: string)
      requires Valid() && content == Split(word, Braces) && |content| > 1
      modifies Repr
      ensures Valid() && Submap(old(interner.table), interner.table)
      ensures interner.table.Keys <= old(interner.table.Keys) + DictionaryKeys(rt, blocks) + RequestedKeys(rt, word)
      ensures |interner.table| <= Capacity ==> r == MorphWordSpec(rt, blocks, word)
    {
      var names := NonBlank(Split(content[1], AttrSeparators));
      AttributedWord(rt, blocks, word, content, names);
      ghost var t0 := interner.table;
      var grammemas := InternRequested(names);
      if |grammemas| == 0 {
        return content[0];
      }
      ghost var t1 := interner.table;
      var found := FindForm(content[0], grammemas, LowerKeys(rt, names));
      SubmapSize(t1, interner.table);
      GrowthWithin(t0.Keys, t1.Keys, interner.table.Keys, DictionaryKeys(rt, blocks), LowerKeys(rt, names));
      r := if found.Some? then found.value else content[0];
    }

    /** `Morph` (Mophology/SentenceMorpher.cs:91-99): rewrite every token of
        the sentence and join the results with single spaces. */
    method Morph(sentence: string) returns (r: string)
      requires Valid()
      modifies Repr
      ensures Valid() && Submap(old(interner.table), interner.table)
      ensures interner.table.Keys
           <= old(interner.table.Keys) + DictionaryKeys(rt, blocks) + TokensKeys(rt, Tokens(sentence))
      ensures |interner.table| <= Capacity ==> r == MorphSpec(rt, blocks, sentence)
      ensures |old(interner.table.Keys) + DictionaryKeys(rt, blocks) + TokensKeys(rt, Tokens(sentence))| <= Capacity ==>
                r == MorphSpec(rt, blocks, sentence)
    {
      var tokens := SplitToWords(sentence);
      var words := MorphTokens(tokens);
      r := Join(' ', words);
    }

    /** The loop of `Morph`: each token rewritten, in order. */
    method MorphTokens(tokens: seq<string>) returns (words: seq<string>)
      requires Valid()
      modifies Repr
      ensures Valid() && Submap(old(interner.table), interner.table)
      ensures interner.table.Keys <= old(interner.table.Keys) + DictionaryKeys(rt, blocks) + TokensKeys(rt, tokens)
      ensures |interner.table| <= Capacity ==> words == MorphWords(rt, blocks, tokens)
      ensures |old(interner.table.Keys) + DictionaryKeys(rt, blocks) + TokensKeys(rt, tokens)| <= Capacity ==>
                words == MorphWords(rt, blocks, tokens)
    {
      words := [];
      var i := 0;
      assert tokens[..0] == [];
      while i < |tokens|
        invariant 0 <= i <= |tokens| && |words| == i
        invariant Valid() && Submap(old(interner.table), interner.table)
        invariant interner.table.Keys
               <= old(interner.table.Keys) + DictionaryKeys(rt, blocks) + TokensKeys(rt, tokens[..i])
        invariant |interner.table| <= Capacity ==> words == MorphWords(rt, blocks, tokens[..i])
      {
        ghost var t1 := interner.table;
        var w := MorphWord(tokens[i]);
        SubmapSize(t1, interner.table);
        MorphWordsSnoc(rt, blocks, tokens, i);
        TokensKeysSnoc(rt, tokens, i);
        words := words + [w];
        i := i + 1;
      }
      assert tokens[..i] == tokens;
      ghost var bound := old(interner.table.Keys) + DictionaryKeys(rt, blocks) + TokensKeys(rt, tokens);
      if |bound| <= Capacity {
        FitsCodes(interner.table, bound);
      }
    }
  }
}
