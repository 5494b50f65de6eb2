/** The sentence tokenizer, `SplitToWords` (Mophology/SentenceMorpher.cs:106-140):
    a space or a newline ends a word only where the braces seen so far are
    balanced, so an attribute list such as `{noun, anim}` stays inside its
    word; the pieces between word ends that are not blank are the tokens. */
module Tokenizer {
  import opened Text

  /** The change a character makes to the brace balance. */
  function Delta(ch: char): int
  {
    if ch == '{' then 1 else if ch == '}' then -1 else 0
  }

  /** `brackets` after reading `s`: opening minus closing braces. */
  function Depth(s: string): int
  {
    if |s| == 0 then 0 else Depth(s[..|s| - 1]) + Delta(s[|s| - 1])
  }

  predicate IsSeparator(ch: char)
  {
    ch == ' ' || ch == '\n'
  }

  /** A position where a word ends: a space or newline at brace depth 0. */
  predicate IsBoundary(s: string, i: nat)
    requires i < |s|
  {
    IsSeparator(s[i]) && Depth(s[..i]) == 0
  }

  ghost predicate Ascending(xs: seq<nat>)
  {
    forall k, m | 0 <= k < m < |xs| :: xs[k] < xs[m]
  }

  /** The word ends below position n, all of them, in ascending order. */
  function BoundariesBelow(s: string, n: nat): (b: seq<nat>)
    requires n <= |s|
    ensures Ascending(b)
    ensures forall k | 0 <= k < |b| :: b[k] < n && IsBoundary(s, b[k])
    ensures forall j | 0 <= j < n && IsBoundary(s, j) :: j in b
  {
    if n == 0 then []
    else BoundariesBelow(s, n - 1) + (if IsBoundary(s, n - 1) then [n - 1] else [])
  }

  /** `whitespaceIndexes` once the first loop is done: every word end, then |s|. */
  function Cuts(s: string): (c: seq<nat>)
    ensures |c| >= 1 && c[|c| - 1] == |s| && Ascending(c)
    ensures forall k | 0 <= k < |c| :: c[k] <= |s|
  {
    BoundariesBelow(s, |s|) + [|s|]
  }

  /** Cut positions a piece loop can walk: ascending, within the string,
      and none before where the first piece starts. */
  ghost predicate ValidCuts(s: string, cuts: seq<nat>, prev: nat)
  {
    && (forall k | 0 < k < |cuts| :: cuts[k - 1] < cuts[k])
    && (forall k | 0 <= k < |cuts| :: cuts[k] <= |s|)
    && (|cuts| > 0 ==> prev <= cuts[0])
  }

  /** Where the k-th piece starts: at `prev` for the first, else just after the previous cut. */
  function Start(cuts: seq<nat>, prev: nat, k: nat): nat
    requires k < |cuts|
  {
    if k == 0 then prev else cuts[k - 1] + 1
  }

  /** The text between consecutive cuts, the cut characters left out. */
  function PiecesFrom(s: string, cuts: seq<nat>, prev: nat): (ps: seq<string>)
    requires ValidCuts(s, cuts, prev)
    ensures |ps| == |cuts|
    decreases |cuts|
  {
    if |cuts| == 0 then []
    else [s[prev..cuts[0]]] + PiecesFrom(s, cuts[1..], cuts[0] + 1)
  }

  /** The k-th piece is the text from its start up to the k-th cut. */
  lemma {:induction false} PieceAt(s: string, cuts: seq<nat>, prev: nat, k: nat)
    requires ValidCuts(s, cuts, prev) && k < |cuts|
    ensures Start(cuts, prev, k) <= cuts[k]
    ensures PiecesFrom(s, cuts, prev)[k] == s[Start(cuts, prev, k)..cuts[k]]
    decreases k
  {
    if k > 0 {
      assert ValidCuts(s, cuts[1..], cuts[0] + 1);
      PieceAt(s, cuts[1..], cuts[0] + 1, k - 1);
    }
  }

  /** Every piece of the sentence, blank ones included. */
  function Pieces(s: string): seq<string>
  {
    PiecesFrom(s, Cuts(s), 0)
  }

  /** The tokens of a sentence: its non-blank pieces, in order. */
  function Tokens(s: string): seq<string>
  {
    NonBlank(Pieces(s))
  }

  /** No piece holds a word end: inside a piece, every space and newline
      stands at a non-zero brace depth. */
  lemma PieceHasNoBoundary(s: string, k: nat, j: nat)
    requires k < |Cuts(s)| && Start(Cuts(s), 0, k) <= j < Cuts(s)[k]
    ensures !IsBoundary(s, j)
  {
  }

  lemma {:induction false} DepthReplace(s: string, i: nat, ch: char, n: nat)
    requires i < |s| && n <= |s| && Delta(ch) == Delta(s[i])
    ensures Depth(s[i := ch][..n]) == Depth(s[..n])
  {
    if n > 0 {
      var t := s[i := ch];
      assert t[..n][..n - 1] == t[..n - 1];
      assert s[..n][..n - 1] == s[..n - 1];
      DepthReplace(s, i, ch, n - 1);
    }
  }

  lemma {:induction false} PiecesFromReplace(s: string, i: nat, ch: char, cuts: seq<nat>, prev: nat)
    requires i < |s| && ValidCuts(s, cuts, prev) && Ascending(cuts)
    requires i < prev || i in cuts
    ensures PiecesFrom(s[i := ch], cuts, prev) == PiecesFrom(s, cuts, prev)
    decreases |cuts|
  {
    if |cuts| > 0 {
      var c0, rest := cuts[0], cuts[1..];
      assert ValidCuts(s, rest, c0 + 1) && Ascending(rest);
      assert i < prev || c0 <= i by {
        if prev <= i {
          var m :| 0 <= m < |cuts| && cuts[m] == i;
          assert cuts[0] <= cuts[m];
        }
      }
      assert i < c0 + 1 || i in rest by {
        if c0 < i {
          var m :| 0 <= m < |cuts| && cuts[m] == i;
          assert rest[m - 1] == i;
        }
      }
      assert s[i := ch][prev..c0] == s[prev..c0];
      PiecesFromReplace(s, i, ch, rest, c0 + 1);
    }
  }

  /** A newline at brace depth 0 splits exactly as a space does. */
  lemma NewlineLikeSpace(s: string, i: nat)
    requires i < |s| && s[i] == '\n' && Depth(s[..i]) == 0
    ensures Tokens(s[i := ' ']) == Tokens(s)
  {
    var t := s[i := ' '];
    forall n | 0 <= n <= |s| ensures Depth(t[..n]) == Depth(s[..n]) {
      DepthReplace(s, i, ' ', n);
    }
    assert forall j | 0 <= j < |s| :: IsBoundary(t, j) == IsBoundary(s, j);
    BoundariesSame(s, t, |s|);
    assert IsBoundary(s, i);
    assert i in Cuts(s);
    PiecesFromReplace(s, i, ' ', Cuts(s), 0);
  }

  lemma {:induction false} BoundariesSame(s: string, t: string, n: nat)
    requires |s| == |t| && n <= |s|
    requires forall j | 0 <= j < |s| :: IsBoundary(t, j) == IsBoundary(s, j)
    ensures BoundariesBelow(t, n) == BoundariesBelow(s, n)
  {
    if n > 0 {
      BoundariesSame(s, t, n - 1);
    }
  }

  /** The first loop of `SplitToWords`: every word end, in order, while
      tracking the brace balance, and then the sentence's length. */
  method WordEnds(sentence: string) returns (whitespaceIndexes: seq<nat>)
    ensures whitespaceIndexes == Cuts(sentence)
  {
    whitespaceIndexes := [];
    var brackets := 0;
    var i := 0;
    while i < |sentence|
      invariant 0 <= i <= |sentence|
      invariant brackets == Depth(sentence[..i])
      invariant whitespaceIndexes == BoundariesBelow(sentence, i)
    {
      assert sentence[..i + 1][..i] == sentence[..i];
      var ch := sentence[i];
      assert Depth(sentence[..i + 1]) == brackets + Delta(ch);
      assert BoundariesBelow(sentence, i + 1) == whitespaceIndexes
        + (if IsSeparator(ch) && brackets == 0 then [i] else []);
      if ch == '{' {
        brackets := brackets + 1;
      } else if ch == '}' {
        brackets := brackets - 1;
      } else if ch == '\n' || ch == ' ' {
        if brackets == 0 {
          whitespaceIndexes := whitespaceIndexes + [i];
        }
      }
      i := i + 1;
    }
    whitespaceIndexes := whitespaceIndexes + [|sentence|];
  }

  /** One step of the piece loop: the k-th piece runs from its start to the
      k-th cut, and is kept after the tokens of the pieces before it unless
      it is blank. */
  lemma TokensStep(s: string, cuts: seq<nat>, k: nat)
    requires ValidCuts(s, cuts, 0) && k < |cuts|
    ensures var p := Start(cuts, 0, k);
      && p <= cuts[k]
      && NonBlank(PiecesFrom(s, cuts, 0)[..k + 1])
         == NonBlank(PiecesFrom(s, cuts, 0)[..k]) + (if IsBlank(s[p..cuts[k]]) then [] else [s[p..cuts[k]]])
  {
    var ps := PiecesFrom(s, cuts, 0);
    PieceAt(s, cuts, 0, k);
    assert ps[..k + 1] == ps[..k] + [ps[k]];
    NonBlankSnoc(ps[..k], ps[k]);
  }

  /** The second loop of `SplitToWords`: the text between consecutive cuts,
      kept when it is not blank. */
  method CutPieces(s: string, cuts: seq<nat>) returns (tokens: seq<string>)
    requires ValidCuts(s, cuts, 0)
    ensures tokens == NonBlank(PiecesFrom(s, cuts, 0))
  {
    tokens := [];
    var prev := 0;
    var k := 0;
    while k < |cuts|
      invariant 0 <= k <= |cuts|
      invariant prev == if k == 0 then 0 else cuts[k - 1] + 1
      invariant tokens == NonBlank(PiecesFrom(s, cuts, 0)[..k])
    {
      TokensStep(s, cuts, k);
      var index := cuts[k];
      var result := s[prev..index];
      prev := index + 1;
      if !IsBlank(result) {
        tokens := tokens + [result];
      }
      k := k + 1;
    }
    assert PiecesFrom(s, cuts, 0)[..k] == PiecesFrom(s, cuts, 0);
  }

  /** `SplitToWords`: cut the sentence at its word ends and keep the pieces
      that are not blank, in order. */
  method SplitToWords(sentence: string) returns (tokens: seq<string>)
    ensures tokens == Tokens(sentence)
  {
    var whitespaceIndexes := WordEnds(sentence);
    tokens := CutPieces(sentence, whitespaceIndexes);
  }
}
