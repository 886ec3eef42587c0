/** The sub-option cases of the library's own tests, worked out on the
    model: the whitelist `ala,ma,kota` of `subparam1` / `subparam2`, the
    defaults `ala=nic` and `ala=nic\nma=koty`, and the whitelist
    `jeden,dwa,trzy` of the stream test. */
module TestCases {
  import opened Wrappers
  import opened Tokenizer
  import opened Options
  import opened Suboptions

  // ---------------------------------------------------------------
  // Reading literal texts

  lemma {:induction false} UpToWhole(s: string, c: char)
    requires c !in s
    ensures UpTo(s, c) == s
    decreases |s|
  {
    if s != [] {
      assert s[0] in s;
      assert s[1..] == s[1..] && forall x :: x in s[1..] ==> x in s;
      UpToWhole(s[1..], c);
      assert s == [s[0]] + s[1..];
    }
  }

  lemma {:induction false} UpToSplit(a: string, c: char, b: string)
    requires c !in a
    ensures UpTo(a + [c] + b, c) == a
    decreases |a|
  {
    var s := a + [c] + b;
    if a == [] {
      assert s[0] == c;
    } else {
      assert a[0] in a;
      assert forall x :: x in a[1..] ==> x in a;
      assert s[0] == a[0] && s[1..] == a[1..] + [c] + b;
      UpToSplit(a[1..], c, b);
      assert a == [a[0]] + a[1..];
    }
  }

  lemma AfterSplit(a: string, c: char, b: string)
    ensures (a + [c] + b)[|a| + 1..] == b
  {
  }

  /** A text without whitespace is its own first word. */
  lemma {:induction false} WordWhole(s: string)
    requires forall i :: 0 <= i < |s| ==> !IsSpace(s[i])
    ensures Word(s) == s
    decreases |s|
  {
    if s != [] {
      assert forall i :: 0 <= i < |s[1..]| ==> s[1..][i] == s[i + 1];
      WordWhole(s[1..]);
      assert s == [s[0]] + s[1..];
    }
  }

  lemma FirstWordWhole(s: string)
    requires s != [] && forall i :: 0 <= i < |s| ==> !IsSpace(s[i])
    ensures FirstWord(s) == s
  {
    WordWhole(s[1..]);
    assert s == [s[0]] + s[1..];
  }

  lemma ExtractWord(tokens: string, text: string, target: Entries)
    requires text != [] && forall i :: 0 <= i < |text| ==> !IsSpace(text[i])
    requires forall i :: 0 <= i < |text| ==> text[i] != '\0'
    ensures Extract(tokens)(text, target) == Some(SubprocessSpec(text, Tokens(tokens), target))
  {
    FirstWordWhole(text);
    assert '\0' !in text;
    UpToWhole(text, '\0');
    assert CString(FirstWord(text)) == text;
  }

  // ---------------------------------------------------------------
  // One element of a sub-option text

  /** `key=value` followed by more elements. */
  lemma PairThen(k: string, v: string, r: string, tokens: seq<string>, out: Entries)
    requires ',' !in k && ',' !in v && '=' !in k && k in tokens
    ensures SubprocessSpec(k + "=" + v + "," + r, tokens, out) == SubprocessSpec(r, tokens, out[k := v])
  {
    var e := k + "=" + v;
    assert ',' !in e by {
      assert forall i :: 0 <= i < |e| ==> e[i] == (if i < |k| then k[i] else if i == |k| then '=' else v[i - |k| - 1]);
    }
    UpToSplit(e, ',', r);
    AfterSplit(e, ',', r);
    UpToSplit(k, '=', v);
    AfterSplit(k, '=', v);
    assert k + "=" + v + "," + r == e + [','] + r;
    assert e == k + ['='] + v;
  }

  /** `key=value` as the last element. */
  lemma PairLast(k: string, v: string, tokens: seq<string>, out: Entries)
    requires ',' !in k && ',' !in v && '=' !in k && k in tokens
    ensures SubprocessSpec(k + "=" + v, tokens, out) == out[k := v]
  {
    var e := k + "=" + v;
    assert ',' !in e by {
      assert forall i :: 0 <= i < |e| ==> e[i] == (if i < |k| then k[i] else if i == |k| then '=' else v[i - |k| - 1]);
    }
    UpToWhole(e, ',');
    UpToSplit(k, '=', v);
    AfterSplit(k, '=', v);
    assert e == k + ['='] + v;
  }

  /** A bare key followed by more elements: the key is set to the empty text. */
  lemma BareThen(k: string, r: string, tokens: seq<string>, out: Entries)
    requires ',' !in k && '=' !in k && k != [] && k in tokens
    ensures SubprocessSpec(k + "," + r, tokens, out) == SubprocessSpec(r, tokens, out[k := ""])
  {
    UpToSplit(k, ',', r);
    AfterSplit(k, ',', r);
    UpToWhole(k, '=');
  }

  // ---------------------------------------------------------------
  // The whitelists

  /** Three words of token characters joined by commas are three tokens. */
  lemma TokensOfThree(a: string, b: string, c: string)
    requires a != [] && forall j :: 0 <= j < |a| ==> IsTokenChar(a[j])
    requires b != [] && forall j :: 0 <= j < |b| ==> IsTokenChar(b[j])
    requires c != [] && forall j :: 0 <= j < |c| ==> IsTokenChar(c[j])
    ensures Tokens(a + "," + b + "," + c) == [a, b, c]
  {
    var tail := b + [','] + c;
    assert Tokens(tail) == [b, c] by {
      TokensSplit(b, ',', c);
      TokensOfWord(b);
      TokensOfWord(c);
    }
    assert Tokens(a + [','] + tail) == [a] + [b, c] by {
      TokensSplit(a, ',', tail);
      TokensOfWord(a);
    }
    assert a + "," + b + "," + c == a + [','] + tail;
  }

  lemma WhitelistAlaMaKota()
    ensures Tokens("ala,ma,kota") == ["ala", "ma", "kota"]
  {
    TokensOfThree("ala", "ma", "kota");
    assert "ala,ma,kota" == "ala" + "," + "ma" + "," + "kota";
  }

  lemma WhitelistJedenDwaTrzy()
    ensures Tokens("jeden,dwa,trzy") == ["jeden", "dwa", "trzy"]
  {
    TokensOfThree("jeden", "dwa", "trzy");
    assert "jeden,dwa,trzy" == "jeden" + "," + "dwa" + "," + "trzy";
  }

  // ---------------------------------------------------------------
  // The texts read as one word

  lemma StreamWord()
    ensures Extract("jeden,dwa,trzy")("jeden,dwa=alfa,trzy=beta", map[])
         == Some(SubprocessSpec("jeden,dwa=alfa,trzy=beta", Tokens("jeden,dwa,trzy"), map[]))
  {
    ExtractWord("jeden,dwa,trzy", "jeden,dwa=alfa,trzy=beta", map[]);
  }

  lemma AlaNicWord()
    ensures Extract("ala,ma,kota")("ala=nic", map[]) == Some(SubprocessSpec("ala=nic", Tokens("ala,ma,kota"), map[]))
  {
    ExtractWord("ala,ma,kota", "ala=nic", map[]);
  }

  lemma MaKotyWord()
    ensures Extract("ala,ma,kota")("ma=koty", map[]) == Some(SubprocessSpec("ma=koty", Tokens("ala,ma,kota"), map[]))
  {
    ExtractWord("ala,ma,kota", "ma=koty", map[]);
  }

  lemma AlaFooWord(so: Entries)
    ensures Extract("ala,ma,kota")("ala=foo,kota=alfa,ma=beta", so)
         == Some(SubprocessSpec("ala=foo,kota=alfa,ma=beta", Tokens("ala,ma,kota"), so))
  {
    ExtractWord("ala,ma,kota", "ala=foo,kota=alfa,ma=beta", so);
  }

  // ---------------------------------------------------------------
  // The texts split into elements

  /** A bare key, then two `key=value` elements. */
  lemma BarePairPair(a: string, b: string, x: string, c: string, y: string, tokens: seq<string>, out: Entries)
    requires ',' !in a && '=' !in a && a != [] && a in tokens
    requires ',' !in b && '=' !in b && ',' !in x && b in tokens
    requires ',' !in c && '=' !in c && ',' !in y && c in tokens
    ensures SubprocessSpec(a + "," + b + "=" + x + "," + c + "=" + y, tokens, out) == out[a := ""][b := x][c := y]
  {
    var t3 := c + "=" + y;
    var t2 := b + "=" + x + "," + t3;
    assert a + "," + b + "=" + x + "," + c + "=" + y == a + "," + t2;
    BareThen(a, t2, tokens, out);
    PairThen(b, x, t3, tokens, out[a := ""]);
    PairLast(c, y, tokens, out[a := ""][b := x]);
  }

  lemma StreamText()
    ensures "jeden,dwa=alfa,trzy=beta" == "jeden" + "," + "dwa" + "=" + "alfa" + "," + "trzy" + "=" + "beta"
  {
  }

  lemma StreamElements()
    ensures SubprocessSpec("jeden,dwa=alfa,trzy=beta", ["jeden", "dwa", "trzy"], map[])
         == map["jeden" := "", "dwa" := "alfa", "trzy" := "beta"]
  {
    StreamText();
    BarePairPair("jeden", "dwa", "alfa", "trzy", "beta", ["jeden", "dwa", "trzy"], map[]);
  }

  lemma AlaNicElements()
    ensures SubprocessSpec("ala=nic", ["ala", "ma", "kota"], map[]) == map["ala" := "nic"]
  {
    PairLast("ala", "nic", ["ala", "ma", "kota"], map[]);
    assert "ala=nic" == "ala" + "=" + "nic";
  }

  lemma MaKotyElements()
    ensures SubprocessSpec("ma=koty", ["ala", "ma", "kota"], map[]) == map["ma" := "koty"]
  {
    PairLast("ma", "koty", ["ala", "ma", "kota"], map[]);
    assert "ma=koty" == "ma" + "=" + "koty";
  }

  /** Three `key=value` elements. */
  lemma PairPairPair(a: string, w: string, b: string, x: string, c: string, y: string, tokens: seq<string>, out: Entries)
    requires ',' !in a && '=' !in a && ',' !in w && a in tokens
    requires ',' !in b && '=' !in b && ',' !in x && b in tokens
    requires ',' !in c && '=' !in c && ',' !in y && c in tokens
    ensures SubprocessSpec(a + "=" + w + "," + b + "=" + x + "," + c + "=" + y, tokens, out) == out[a := w][b := x][c := y]
  {
    var t3 := c + "=" + y;
    var t2 := b + "=" + x + "," + t3;
    assert a + "=" + w + "," + b + "=" + x + "," + c + "=" + y == a + "=" + w + "," + t2;
    PairThen(a, w, t2, tokens, out);
    PairThen(b, x, t3, tokens, out[a := w]);
    PairLast(c, y, tokens, out[a := w][b := x]);
  }

  lemma AlaFooText()
    ensures "ala=foo,kota=alfa,ma=beta" == "ala" + "=" + "foo" + "," + "kota" + "=" + "alfa" + "," + "ma" + "=" + "beta"
  {
  }

  lemma AlaFooElements(so: Entries)
    ensures SubprocessSpec("ala=foo,kota=alfa,ma=beta", ["ala", "ma", "kota"], so)
         == so["ala" := "foo"]["kota" := "alfa"]["ma" := "beta"]
  {
    AlaFooText();
    PairPairPair("ala", "foo", "kota", "alfa", "ma", "beta", ["ala", "ma", "kota"], so);
  }

  // ---------------------------------------------------------------
  // The test cases

  /** The stream test: `jeden,dwa=alfa,trzy=beta` read against the whitelist
      `jeden,dwa,trzy` gives three entries, `jeden` empty. */
  lemma StreamTest()
    ensures Extract("jeden,dwa,trzy")("jeden,dwa=alfa,trzy=beta", map[])
         == Some(map["jeden" := "", "dwa" := "alfa", "trzy" := "beta"])
  {
    WhitelistJedenDwaTrzy();
    StreamWord();
    StreamElements();
  }

  /** `ala=nic` read against `ala,ma,kota` from the empty map. */
  lemma AlaNic()
    ensures Extract("ala,ma,kota")("ala=nic", map[]) == Some(map["ala" := "nic"])
  {
    WhitelistAlaMaKota();
    AlaNicWord();
    AlaNicElements();
  }

  /** `ma=koty` read against `ala,ma,kota` from the empty map. */
  lemma MaKoty()
    ensures Extract("ala,ma,kota")("ma=koty", map[]) == Some(map["ma" := "koty"])
  {
    WhitelistAlaMaKota();
    MaKotyWord();
    MaKotyElements();
  }

  /** `ala=foo,kota=alfa,ma=beta` merged into the entries `so`. */
  lemma AlaFooMerged(so: Entries)
    ensures Extract("ala,ma,kota")("ala=foo,kota=alfa,ma=beta", so)
         == Some(so["ala" := "foo"]["kota" := "alfa"]["ma" := "beta"])
  {
    WhitelistAlaMaKota();
    AlaFooWord(so);
    AlaFooElements(so);
  }

  /** `subparam1` cleared: its default gives one entry, `ala` = `nic`. */
  lemma SingleDefault()
    ensures SingleClear(Extract("ala,ma,kota"), map[], "ala=nic") == SingleState(0, map["ala" := "nic"])
  {
    AlaNic();
  }

  /** Two non-empty lines joined by a newline. */
  lemma LinesOfTwo(a: string, b: string)
    requires '\n' !in a && b != [] && '\n' !in b
    ensures Lines(a + "\n" + b) == [a, b]
  {
    LinesCons(a, b);
    LinesOfLine(b);
  }

  lemma DefaultText()
    ensures "ala=nic\nma=koty" == "ala=nic" + "\n" + "ma=koty"
  {
  }

  /** The default lines of `subparam2`. */
  lemma DefaultLines()
    ensures Lines("ala=nic\nma=koty") == ["ala=nic", "ma=koty"]
  {
    DefaultText();
    LinesOfTwo("ala=nic", "ma=koty");
  }

  lemma ExtractTwo<T>(extract: Extractor<T>, zero: T, a: string, b: string)
    ensures ExtractEach(extract, zero, [a, b]) == [ExtractInto(extract, a, zero).1, ExtractInto(extract, b, zero).1]
  {
    assert [a, b][..1] == [a];
    assert [a][..0] == [];
  }

  /** `subparam2` cleared: two elements, one entry each, in the order of the
      default's lines. */
  lemma VectorDefault()
    ensures VectorClear(Extract("ala,ma,kota"), map[], "ala=nic\nma=koty")
         == VectorState(true, 0, [map["ala" := "nic"], map["ma" := "koty"]])
  {
    DefaultLines();
    ExtractTwo(Extract("ala,ma,kota"), map[], "ala=nic", "ma=koty");
    AlaNic();
    MaKoty();
  }

  /** `-m ala=foo,kota=alfa,ma=beta` on the cleared `subparam1`: the value
      overrides the default's `ala` and holds three entries. */
  lemma SingleOption()
    ensures SingleSetValue(Extract("ala,ma,kota"), SingleState(0, map["ala" := "nic"]), "ala=foo,kota=alfa,ma=beta")
         == (SingleState(1, map["ala" := "foo", "kota" := "alfa", "ma" := "beta"]), 0)
  {
    var so := map["ala" := "nic"];
    AlaFooMerged(so);
    assert Inc(0) == 1;
    assert so["ala" := "foo"]["kota" := "alfa"]["ma" := "beta"] == map["ala" := "foo", "kota" := "alfa", "ma" := "beta"] by {
      AlaOverridden();
    }
  }

  lemma AlaOverridden()
    ensures map["ala" := "nic"]["ala" := "foo"]["kota" := "alfa"]["ma" := "beta"] == map["ala" := "foo", "kota" := "alfa", "ma" := "beta"]
  {
  }

  lemma VectorOption()
    ensures VectorSetValue(Extract("ala,ma,kota"), map[],
                           VectorState(true, 0, [map["ala" := "nic"], map["ma" := "koty"]]), "ala=foo,kota=alfa,ma=beta")
         == (VectorState(false, 1, [map["ala" := "foo", "kota" := "alfa", "ma" := "beta"]]), 0)
  {
    var m: Entries := map["ala" := "foo", "kota" := "alfa", "ma" := "beta"];
    AlaFooMerged(map[]);
    assert Inc(0) == 1;
    assert [] + [m] == [m];
  }
}
