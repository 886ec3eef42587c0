/** The token splitter of `tokenizer.cpp`: breaks free-form text into the
    maximal runs of alphanumerics, `-`, `_` and `.`. */
module Tokenizer {

  /** `std::isalnum` in the "C" locale (ASCII letters and digits). */
  predicate IsAlnum(c: char) {
    'a' <= c <= 'z' || 'A' <= c <= 'Z' || '0' <= c <= '9'
  }

  /** The character classifier: alphanumerics, `-`, `_` and `.` belong to
      tokens; every other character separates them. */
  predicate IsTokenChar(c: char) {
    IsAlnum(c) || c == '-' || c == '_' || c == '.'
  }

  /** One more character of text: a token character extends the last piece,
      a separator opens a new, empty one. */
  function Step(p: seq<string>, c: char): (r: seq<string>)
    requires |p| >= 1
    ensures |r| >= 1
  {
    if IsTokenChar(c) then p[..|p| - 1] + [p[|p| - 1] + [c]] else p + [[]]
  }

  /** The text between separators, in order: one more piece than there are
      separator characters, empty pieces included. */
  function Pieces(s: string): (r: seq<string>)
    ensures |r| >= 1
    decreases |s|
  {
    if s == [] then [[]] else Step(Pieces(s[..|s| - 1]), s[|s| - 1])
  }

  /** The non-empty strings of `ps`, in order. */
  function NonEmpty(ps: seq<string>): seq<string>
    decreases |ps|
  {
    if ps == [] then []
    else NonEmpty(ps[..|ps| - 1]) + (if ps[|ps| - 1] == [] then [] else [ps[|ps| - 1]])
  }

  /** The tokens of `s`: its non-empty pieces. */
  function Tokens(s: string): seq<string> {
    NonEmpty(Pieces(s))
  }

  /** The concatenation of a sequence of strings. */
  function Concat(ts: seq<string>): string
    decreases |ts|
  {
    if ts == [] then [] else Concat(ts[..|ts| - 1]) + ts[|ts| - 1]
  }

  /** The token characters of `s`, in order (the separators removed). */
  function TokenCharsOf(s: string): string
    decreases |s|
  {
    if s == [] then []
    else TokenCharsOf(s[..|s| - 1]) + (if IsTokenChar(s[|s| - 1]) then [s[|s| - 1]] else [])
  }

  lemma {:induction false} NonEmptyAppend(a: seq<string>, b: seq<string>)
    ensures NonEmpty(a + b) == NonEmpty(a) + NonEmpty(b)
    decreases |b|
  {
    if b == [] {
      assert a + b == a;
    } else {
      var ab := a + b;
      assert ab[..|ab| - 1] == a + b[..|b| - 1];
      assert ab[|ab| - 1] == b[|b| - 1];
      NonEmptyAppend(a, b[..|b| - 1]);
    }
  }

  lemma ConcatSnoc(q: seq<string>, x: string)
    ensures Concat(q + [x]) == Concat(q) + x
  {
    assert (q + [x])[..|q|] == q;
  }

  /** Appends the tokens of `input` to `tokens`, as
      `tokenizer(const std::string &, tokens_t &)` pushes into its
      out-parameter: the earlier contents stay in front, untouched. */
  method Tokenize(input: string, tokens: seq<string>) returns (result: seq<string>)
    ensures result == tokens + Tokens(input)
  {
    var token: string := [];
    result := tokens;
    var i := 0;
    ghost var p: seq<string> := [[]];
    while i < |input|
      invariant 0 <= i <= |input|
      invariant p == Pieces(input[..i])
      invariant token == p[|p| - 1] && result == tokens + NonEmpty(p[..|p| - 1])
    {
      var c := input[i];
      PrefixSnoc(input, i);
      PiecesSnoc(input[..i], c);
      StepParts(p, c);
      if IsTokenChar(c) {
        token := token + [c];
      } else {
        NonEmptyLast(p);
        if token != [] {
          SeqAssoc(tokens, NonEmpty(p[..|p| - 1]), [token]);
          result := result + [token];
        }
        token := [];
      }
      p := Step(p, c);
      i := i + 1;
    }
    assert input[..i] == input;
    NonEmptyLast(p);
    if token != [] {
      SeqAssoc(tokens, NonEmpty(p[..|p| - 1]), [token]);
      result := result + [token];
    }
  }

  lemma SeqAssoc<X>(a: seq<X>, b: seq<X>, c: seq<X>)
    ensures (a + b) + c == a + (b + c)
  {
  }

  /** The non-empty strings of `ps` are those before the last, then the last
      if it is non-empty. */
  lemma NonEmptyLast(ps: seq<string>)
    requires |ps| >= 1
    ensures NonEmpty(ps) == NonEmpty(ps[..|ps| - 1]) + (if ps[|ps| - 1] == [] then [] else [ps[|ps| - 1]])
  {
  }

  lemma PrefixSnoc(s: string, i: nat)
    requires i < |s|
    ensures s[..i + 1] == s[..i] + [s[i]]
  {
  }

  /** The finished pieces and the open (last) one after a step. */
  lemma StepParts(p: seq<string>, c: char)
    requires |p| >= 1
    ensures var q := Step(p, c);
      && q[..|q| - 1] == (if IsTokenChar(c) then p[..|p| - 1] else p)
      && q[|q| - 1] == (if IsTokenChar(c) then p[|p| - 1] + [c] else [])
  {
  }

  /** Every piece consists of token characters only. */
  lemma {:induction false} PiecesAreTokenChars(s: string)
    ensures forall k, j :: 0 <= k < |Pieces(s)| && 0 <= j < |Pieces(s)[k]| ==> IsTokenChar(Pieces(s)[k][j])
    decreases |s|
  {
    if s != [] {
      PiecesAreTokenChars(s[..|s| - 1]);
    }
  }

  lemma {:induction false} NonEmptyKeeps(ps: seq<string>, P: string -> bool)
    requires forall k :: 0 <= k < |ps| ==> P(ps[k])
    ensures forall k :: 0 <= k < |NonEmpty(ps)| ==> NonEmpty(ps)[k] != [] && P(NonEmpty(ps)[k])
    decreases |ps|
  {
    if ps != [] {
      NonEmptyKeeps(ps[..|ps| - 1], P);
    }
  }

  /** Every token is non-empty and made of token characters only, so runs of
      separators never yield empty tokens. */
  lemma TokensAreWellFormed(s: string)
    ensures forall k :: 0 <= k < |Tokens(s)| ==> Tokens(s)[k] != [] && forall j :: 0 <= j < |Tokens(s)[k]| ==> IsTokenChar(Tokens(s)[k][j])
  {
    PiecesAreTokenChars(s);
    var P := (t: string) => forall j :: 0 <= j < |t| ==> IsTokenChar(t[j]);
    NonEmptyKeeps(Pieces(s), P);
  }

  lemma {:induction false} ConcatNonEmpty(ps: seq<string>)
    ensures Concat(NonEmpty(ps)) == Concat(ps)
    decreases |ps|
  {
    if ps != [] {
      var init, last := ps[..|ps| - 1], ps[|ps| - 1];
      ConcatNonEmpty(init);
      if last == [] {
        assert NonEmpty(ps) == NonEmpty(init) + [];
        assert NonEmpty(init) + [] == NonEmpty(init);
        assert Concat(init) + last == Concat(init);
      } else {
        ConcatSnoc(NonEmpty(init), last);
      }
    }
  }

  lemma ConcatLast(p: seq<string>)
    requires |p| >= 1
    ensures Concat(p) == Concat(p[..|p| - 1]) + p[|p| - 1]
  {
  }

  lemma AppendAssoc(x: string, y: string, z: string)
    ensures x + (y + z) == (x + y) + z
  {
  }

  lemma ConcatStep(p: seq<string>, c: char)
    requires |p| >= 1
    ensures Concat(Step(p, c)) == Concat(p) + (if IsTokenChar(c) then [c] else [])
  {
    if IsTokenChar(c) {
      var init, last := p[..|p| - 1], p[|p| - 1];
      ConcatSnoc(init, last + [c]);
      ConcatLast(p);
      AppendAssoc(Concat(init), last, [c]);
    } else {
      ConcatSnoc(p, []);
      AppendAssoc(Concat(p), [], []);
    }
  }

  lemma {:induction false} ConcatPieces(s: string)
    ensures Concat(Pieces(s)) == TokenCharsOf(s)
    decreases |s|
  {
    if s != [] {
      ConcatPieces(s[..|s| - 1]);
      ConcatStep(Pieces(s[..|s| - 1]), s[|s| - 1]);
    }
  }

  /** Concatenating the tokens gives the input with every separator
      removed, in the original order. */
  lemma TokensConcat(s: string)
    ensures Concat(Tokens(s)) == TokenCharsOf(s)
  {
    ConcatNonEmpty(Pieces(s));
    ConcatPieces(s);
  }

  /** One more character appended to the text is one more step. */
  lemma PiecesSnoc(s: string, d: char)
    ensures Pieces(s + [d]) == Step(Pieces(s), d)
  {
    assert (s + [d])[..|s + [d]| - 1] == s;
  }

  /** A step only touches the last piece. */
  lemma StepAppend(x: seq<string>, y: seq<string>, c: char)
    requires |y| >= 1
    ensures Step(x + y, c) == x + Step(y, c)
  {
    var xy := x + y;
    if IsTokenChar(c) {
      assert xy[..|xy| - 1] == x + y[..|y| - 1];
      assert xy[|xy| - 1] == y[|y| - 1];
    }
  }

  lemma {:induction false} PiecesSplit(a: string, c: char, b: string)
    requires !IsTokenChar(c)
    ensures Pieces(a + [c] + b) == Pieces(a) + Pieces(b)
    decreases |b|
  {
    if b == [] {
      PiecesSnoc(a, c);
      assert a + [c] + b == a + [c];
    } else {
      var b', d := b[..|b| - 1], b[|b| - 1];
      assert a + [c] + b == (a + [c] + b') + [d];
      PiecesSplit(a, c, b');
      PiecesSnoc(a + [c] + b', d);
      StepAppend(Pieces(a), Pieces(b'), d);
    }
  }

  /** A separator character splits the tokens: those of the text before it
      followed by those of the text after it (tokens are maximal runs). */
  lemma TokensSplit(a: string, c: char, b: string)
    requires !IsTokenChar(c)
    ensures Tokens(a + [c] + b) == Tokens(a) + Tokens(b)
  {
    PiecesSplit(a, c, b);
    NonEmptyAppend(Pieces(a), Pieces(b));
  }

  /** A text made of token characters only is one token, or none if empty. */
  lemma {:induction false} PiecesOfWord(w: string)
    requires forall j :: 0 <= j < |w| ==> IsTokenChar(w[j])
    ensures Pieces(w) == [w]
    decreases |w|
  {
    if w != [] {
      PiecesOfWord(w[..|w| - 1]);
      assert w[..|w| - 1] + [w[|w| - 1]] == w;
    }
  }

  lemma TokensOfWord(w: string)
    requires forall j :: 0 <= j < |w| ==> IsTokenChar(w[j])
    ensures Tokens(w) == if w == [] then [] else [w]
  {
    PiecesOfWord(w);
    assert [w][..0] == [];
    assert NonEmpty([w]) == NonEmpty([]) + (if w == [] then [] else [w]);
  }

  lemma {:induction false} NoTokenCharsOfSeparators(s: string)
    requires forall j :: 0 <= j < |s| ==> !IsTokenChar(s[j])
    ensures TokenCharsOf(s) == []
    decreases |s|
  {
    if s != [] {
      NoTokenCharsOfSeparators(s[..|s| - 1]);
    }
  }

  lemma {:induction false} ConcatEmpty(ts: seq<string>)
    requires (forall k :: 0 <= k < |ts| ==> ts[k] != []) && Concat(ts) == []
    ensures ts == []
  {
  }

  /** Empty or all-separator text has no tokens. */
  lemma TokensOfSeparators(s: string)
    requires forall j :: 0 <= j < |s| ==> !IsTokenChar(s[j])
    ensures Tokens(s) == []
  {
    TokensConcat(s);
    NoTokenCharsOfSeparators(s);
    TokensAreWellFormed(s);
    ConcatEmpty(Tokens(s));
  }
}
