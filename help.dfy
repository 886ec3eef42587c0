/** The help text of `options.cpp`: one line per option reachable through a
    name, showing its names, a parameter marker, its description in the
    requested language and its default.  `help` reads the registry's maps and
    list and nothing else, so it is given them as a `Tables` value; where the
    source writes to a stream, the methods here return the text written. */
module Help {
  import opened Options
  import opened Getopt
  import opened Registry

  // ---------------------------------------------------------------
  // Words with separators, as the source's `first` flags write them

  /** The words with `sep` between each two of them. */
  function Join(ws: seq<string>, sep: string): string
    decreases |ws|
  {
    if ws == [] then ""
    else if |ws| == 1 then ws[0]
    else Join(ws[..|ws| - 1], sep) + sep + ws[|ws| - 1]
  }

  /** A word written after others is preceded by the separator; the first
      one is not. */
  lemma JoinSnoc(ws: seq<string>, w: string, sep: string)
    ensures Join(ws + [w], sep) == if ws == [] then w else Join(ws, sep) + sep + w
  {
    assert (ws + [w])[..|ws|] == ws;
  }

  /** Writing at most one more word: nothing, the word alone, or the
      separator and the word. */
  lemma JoinStep(ws: seq<string>, extra: seq<string>, s: string, sep: string)
    requires s == Join(ws, sep) && |extra| <= 1
    ensures Join(ws + extra, sep) == if extra == [] then s else if ws == [] then extra[0] else s + sep + extra[0]
    ensures ws + extra == [] <==> ws == [] && extra == []
  {
    if extra == [] {
      assert ws + extra == ws;
    } else {
      assert extra == [extra[0]];
      JoinSnoc(ws, extra[0], sep);
    }
  }

  /** The word for each key of `keys` that `m` maps to `idx`, in the order of
      `keys` (the `if (it->second==ptr)` of the name loops). */
  function Words<K(==)>(keys: seq<K>, m: map<K, nat>, idx: nat, word: K -> string): (r: seq<string>)
    ensures |r| <= |keys|
    decreases |keys|
  {
    if keys == [] then []
    else
      var k := keys[|keys| - 1];
      Words(keys[..|keys| - 1], m, idx, word) + (if k in m && m[k] == idx then [word(k)] else [])
  }

  lemma WordsStep<K>(keys: seq<K>, m: map<K, nat>, idx: nat, word: K -> string, i: nat)
    requires i < |keys|
    ensures Words(keys[..i + 1], m, idx, word)
         == Words(keys[..i], m, idx, word) + (if keys[i] in m && m[keys[i]] == idx then [word(keys[i])] else [])
  {
    assert keys[..i + 1][..i] == keys[..i];
  }

  /** No key names `idx`: no words. */
  lemma {:induction false} WordsNone<K>(keys: seq<K>, m: map<K, nat>, idx: nat, word: K -> string)
    requires forall j :: 0 <= j < |keys| ==> !(keys[j] in m && m[keys[j]] == idx)
    ensures Words(keys, m, idx, word) == []
    decreases |keys|
  {
    if keys != [] {
      var front := keys[..|keys| - 1];
      assert forall j :: 0 <= j < |front| ==> front[j] == keys[j];
      WordsNone(front, m, idx, word);
    }
  }

  /** Exactly one key, occurring once, names `idx`: its word alone. */
  lemma {:induction false} WordsOne<K>(keys: seq<K>, m: map<K, nat>, idx: nat, word: K -> string, k: K)
    requires k in keys && k in m && m[k] == idx
    requires forall i, j :: 0 <= i < j < |keys| ==> keys[i] != keys[j]
    requires forall j :: 0 <= j < |keys| && keys[j] in m && m[keys[j]] == idx ==> keys[j] == k
    ensures Words(keys, m, idx, word) == [word(k)]
    decreases |keys|
  {
    var n := |keys| - 1;
    var front := keys[..n];
    assert forall j :: 0 <= j < |front| ==> front[j] == keys[j];
    if keys[n] == k {
      forall j | 0 <= j < |front|
        ensures !(front[j] in m && m[front[j]] == idx)
      {
        assert keys[j] != keys[n];
      }
      WordsNone(front, m, idx, word);
    } else {
      assert keys == front + [keys[n]];
      assert k in front;
      WordsOne(front, m, idx, word, k);
    }
  }

  // ---------------------------------------------------------------
  // The parts of one line

  function ShortWord(c: char): string {
    "-" + [c]
  }

  function LongWord(s: string): string {
    "--" + s
  }

  /** The names of option `idx`: `-c` for each short name, then `--name` for
      each long name, each list in map order, separated by commas. */
  function Names<T>(t: Tables<T>, idx: nat): string {
    Join(Words(ShortKeys(t.shortMap), t.shortMap, idx, ShortWord)
         + Words(LongKeys(t.longMap), t.longMap, idx, LongWord), ",")
  }

  /** What follows the names and their space: a marker and a space for an
      option whose type is not the counter type (`getType() != counter::type`,
      which holds exactly for the other two kinds), nothing for a counter. */
  function Marker<T>(o: OptRef<T>): string {
    if o.CounterRef? then ""
    else if ValueRequired(o) then "<mandatory param> "
    else "<optional param> "
  }

  /** The texts of the descriptions tagged `locale`, in order. */
  function InLocale(ds: seq<Description>, locale: string): (r: seq<string>)
    ensures |r| <= |ds|
    decreases |ds|
  {
    if ds == [] then []
    else
      var d := ds[|ds| - 1];
      InLocale(ds[..|ds| - 1], locale) + (if d.locale == locale then [d.desc] else [])
  }

  lemma InLocaleStep(ds: seq<Description>, locale: string, i: nat)
    requires i < |ds|
    ensures InLocale(ds[..i + 1], locale)
         == InLocale(ds[..i], locale) + (if ds[i].locale == locale then [ds[i].desc] else [])
  {
    assert ds[..i + 1][..i] == ds[..i];
  }

  lemma {:induction false} InLocaleAppend(a: seq<Description>, b: seq<Description>, locale: string)
    ensures InLocale(a + b, locale) == InLocale(a, locale) + InLocale(b, locale)
    decreases |b|
  {
    if b == [] {
      assert a + b == a;
    } else {
      var n := |b| - 1;
      assert (a + b)[..|a| + n] == a + b[..n];
      InLocaleAppend(a, b[..n], locale);
      assert (a + b)[|a| + n] == b[n];
    }
  }

  /** The descriptions in the requested language, separated by spaces; when
      there is none in that language (not even an empty one), those of the
      empty locale tag. */
  function DescText(ds: seq<Description>, locale: string): string {
    var m := InLocale(ds, locale);
    if m != [] then Join(m, " ") else Join(InLocale(ds, ""), " ")
  }

  /** The lines of a default value, each in double quotes. */
  function Quoted(ls: seq<string>): (r: seq<string>)
    ensures |r| == |ls| && forall i :: 0 <= i < |ls| ==> r[i] == "\"" + ls[i] + "\""
  {
    seq(|ls|, i requires 0 <= i < |ls| => "\"" + ls[i] + "\"")
  }

  /** ` Default: "…".` for an option with a default, nothing otherwise; a
      vector's default (`getType() == vector<int>::type`, the same string for
      every element type) is shown line by line, each line quoted, separated by
      commas. */
  function DefaultText<T>(o: OptRef<T>): string {
    var d := Desc(o).defaultValue;
    if d == [] then []
    else " Default: " + (if o.VectorRef? then Join(Quoted(Lines(d)), ",") else "\"" + d + "\"") + "."
  }

  /** `help(ptr, os, locale)`: the line written for option `idx`. */
  function HelpLine<T>(t: Tables<T>, idx: nat, locale: string): string
    requires idx < |t.opts|
  {
    var o := t.opts[idx];
    Names(t, idx) + " " + Marker(o) + DescText(Desc(o).description, locale) + DefaultText(o) + "\n"
  }

  // ---------------------------------------------------------------
  // What the line says

  /** The one short name of option `idx` gives the one short word. */
  lemma ShortWordsOf(sm: map<char, nat>, n: nat, idx: nat, c: char)
    requires ShortMapOk(sm, n) && c in sm && sm[c] == idx
    ensures Words(ShortKeys(sm), sm, idx, ShortWord) == [ShortWord(c)]
  {
    var sk := ShortKeys(sm);
    assert c in sk;
    WordsOne(sk, sm, idx, ShortWord, c);
  }

  lemma NoShortWords(sm: map<char, nat>, idx: nat)
    requires forall c :: c in sm ==> sm[c] != idx
    ensures Words(ShortKeys(sm), sm, idx, ShortWord) == []
  {
    var sk := ShortKeys(sm);
    assert forall j :: 0 <= j < |sk| ==> sk[j] in sk;
    WordsNone(sk, sm, idx, ShortWord);
  }

  /** The one long name of option `idx` gives the one long word. */
  lemma LongWordsOf(lm: map<string, nat>, n: nat, idx: nat, s: string)
    requires LongMapOk(lm, n) && s in lm && lm[s] == idx
    ensures Words(LongKeys(lm), lm, idx, LongWord) == [LongWord(s)]
  {
    var lk := LongKeys(lm);
    assert s in lk;
    WordsOne(lk, lm, idx, LongWord, s);
  }

  lemma NoLongWords(lm: map<string, nat>, idx: nat)
    requires forall s :: s in lm ==> lm[s] != idx
    ensures Words(LongKeys(lm), lm, idx, LongWord) == []
  {
    var lk := LongKeys(lm);
    assert forall j :: 0 <= j < |lk| ==> lk[j] in lk;
    WordsNone(lk, lm, idx, LongWord);
  }

  /** An option of a well-formed registry has at most one short and one long
      name, and its line starts with them: `-c,--name`, `-c` or `--name`. */
  lemma HelpNames<T>(t: Tables<T>, idx: nat, c: char, s: string)
    requires WellFormed(t)
    requires c in t.shortMap && t.shortMap[c] == idx
    requires s in t.longMap && t.longMap[s] == idx
    ensures Names(t, idx) == ShortWord(c) + "," + LongWord(s)
  {
    ShortWordsOf(t.shortMap, |t.opts|, idx, c);
    LongWordsOf(t.longMap, |t.opts|, idx, s);
    JoinSnoc([ShortWord(c)], LongWord(s), ",");
  }

  lemma HelpNamesShortOnly<T>(t: Tables<T>, idx: nat, c: char)
    requires WellFormed(t)
    requires c in t.shortMap && t.shortMap[c] == idx
    requires forall s :: s in t.longMap ==> t.longMap[s] != idx
    ensures Names(t, idx) == ShortWord(c)
  {
    ShortWordsOf(t.shortMap, |t.opts|, idx, c);
    NoLongWords(t.longMap, idx);
    assert [ShortWord(c)] + [] == [ShortWord(c)];
  }

  lemma HelpNamesLongOnly<T>(t: Tables<T>, idx: nat, s: string)
    requires WellFormed(t)
    requires forall c :: c in t.shortMap ==> t.shortMap[c] != idx
    requires s in t.longMap && t.longMap[s] == idx
    ensures Names(t, idx) == LongWord(s)
  {
    NoShortWords(t.shortMap, idx);
    LongWordsOf(t.longMap, |t.opts|, idx, s);
    assert [] + [LongWord(s)] == [LongWord(s)];
  }

  lemma {:induction false} InLocaleNone(ds: seq<Description>, locale: string)
    requires forall i :: 0 <= i < |ds| ==> ds[i].locale != locale
    ensures InLocale(ds, locale) == []
    decreases |ds|
  {
    if ds != [] {
      var front := ds[..|ds| - 1];
      assert forall i :: 0 <= i < |front| ==> front[i] == ds[i];
      InLocaleNone(front, locale);
    }
  }

  lemma {:induction false} InLocaleSome(ds: seq<Description>, locale: string, k: nat)
    requires k < |ds| && ds[k].locale == locale
    ensures InLocale(ds, locale) != []
    decreases |ds|
  {
    var n := |ds| - 1;
    if k < n {
      assert ds[..n][k] == ds[k];
      InLocaleSome(ds[..n], locale, k);
    }
  }

  /** With descriptions built by `init` and no translation into `locale`
      (and no other untagged description), the line shows the default
      description. */
  lemma DescFallback(shortOpt: string, longOpt: string, defaultVal: string, defaultDesc: string,
                     localeDesc: seq<Description>, locale: string)
    requires forall i :: 0 <= i < |localeDesc| ==> localeDesc[i].locale != locale && localeDesc[i].locale != ""
    ensures DescText(Init(shortOpt, longOpt, defaultVal, defaultDesc, localeDesc).description, locale) == defaultDesc
  {
    var last := [Description("", defaultDesc)];
    var ds := Init(shortOpt, longOpt, defaultVal, defaultDesc, localeDesc).description;
    assert ds == localeDesc + last;
    assert last[..0] == [];
    InLocaleAppend(localeDesc, last, locale);
    InLocaleAppend(localeDesc, last, "");
    InLocaleNone(localeDesc, locale);
    InLocaleNone(localeDesc, "");
    if locale == "" {
      assert InLocale(ds, locale) == [defaultDesc];
    } else {
      assert InLocale(ds, locale) == [];
      assert InLocale(ds, "") == [defaultDesc];
    }
  }

  /** With a translation into a non-empty `locale`, the line shows the
      translations, in order, and not the default description. */
  lemma DescTranslated(shortOpt: string, longOpt: string, defaultVal: string, defaultDesc: string,
                       localeDesc: seq<Description>, locale: string, k: nat)
    requires locale != "" && k < |localeDesc| && localeDesc[k].locale == locale
    ensures DescText(Init(shortOpt, longOpt, defaultVal, defaultDesc, localeDesc).description, locale)
         == Join(InLocale(localeDesc, locale), " ")
    ensures InLocale(localeDesc, locale) != []
  {
    var last := [Description("", defaultDesc)];
    var ds := Init(shortOpt, longOpt, defaultVal, defaultDesc, localeDesc).description;
    assert ds == localeDesc + last;
    assert last[..0] == [];
    InLocaleAppend(localeDesc, last, locale);
    assert InLocale(ds, locale) == InLocale(localeDesc, locale);
    InLocaleSome(localeDesc, locale, k);
  }

  /** A vector whose default is the lines `ls` shows each of them quoted:
      the values `clear` loads from it. */
  lemma DefaultOfVector<T>(o: OptRef<T>, ls: seq<string>)
    requires o.VectorRef? && Desc(o).defaultValue == JoinLines(ls)
    requires ls != [] && ls[|ls| - 1] != []
    requires forall k :: 0 <= k < |ls| ==> '\n' !in ls[k]
    ensures DefaultText(o) == " Default: " + Join(Quoted(ls), ",") + "."
  {
    LinesOfJoin(ls);
  }

  // ---------------------------------------------------------------
  // Which options, in which order

  /** The option each key of `keys` refers to, in order. */
  function Mapped<K>(keys: seq<K>, m: map<K, nat>): (r: seq<nat>)
    requires forall k :: k in keys ==> k in m
    ensures |r| == |keys| && forall j :: 0 <= j < |keys| ==> r[j] == m[keys[j]]
  {
    seq(|keys|, j requires 0 <= j < |keys| => m[keys[j]])
  }

  /** The options a sequence of all the keys of `m` refers to are the values
      of `m`. */
  lemma MappedCovers<K>(keys: seq<K>, m: map<K, nat>, x: nat)
    requires forall k :: k in keys <==> k in m
    ensures x in Mapped(keys, m) <==> exists k :: k in m && m[k] == x
  {
    var r := Mapped(keys, m);
    if x in r {
      var j :| 0 <= j < |r| && r[j] == x;
      assert keys[j] in keys;
    }
    if k :| k in m && m[k] == x {
      var j :| 0 <= j < |keys| && keys[j] == k;
      assert r[j] == x;
    }
  }

  /** The option each short name refers to, in map order, then the option
      each long name refers to (what the two loops of `help(os, locale)`
      visit). */
  function Targets<T>(t: Tables<T>): seq<nat> {
    Mapped(ShortKeys(t.shortMap), t.shortMap) + Mapped(LongKeys(t.longMap), t.longMap)
  }

  /** Every element is below `n`. */
  predicate Below(xs: seq<nat>, n: nat) {
    forall j :: 0 <= j < |xs| ==> xs[j] < n
  }

  lemma MappedBelow<K>(keys: seq<K>, m: map<K, nat>, n: nat)
    requires forall k :: k in keys <==> k in m
    requires forall k :: k in m ==> m[k] < n
    ensures Below(Mapped(keys, m), n)
  {
    var r := Mapped(keys, m);
    forall j | 0 <= j < |r|
      ensures r[j] < n
    {
      assert keys[j] in keys;
    }
  }

  /** Every name refers to an option of the list. */
  lemma TargetsBelow<T>(t: Tables<T>)
    requires InRange(t)
    ensures Below(Targets(t), |t.opts|)
  {
    var st := Mapped(ShortKeys(t.shortMap), t.shortMap);
    var lt := Mapped(LongKeys(t.longMap), t.longMap);
    MappedBelow(ShortKeys(t.shortMap), t.shortMap, |t.opts|);
    MappedBelow(LongKeys(t.longMap), t.longMap, |t.opts|);
    BelowAppend(st, lt, |t.opts|);
  }

  lemma BelowAppend(a: seq<nat>, b: seq<nat>, n: nat)
    requires Below(a, n) && Below(b, n)
    ensures Below(a + b, n)
  {
  }

  /** The first occurrence of each element, in order (the `optionSet` of
      options already shown). */
  function Dedup(xs: seq<nat>): seq<nat>
    decreases |xs|
  {
    if xs == [] then []
    else
      var p := Dedup(xs[..|xs| - 1]);
      var x := xs[|xs| - 1];
      if x in p then p else p + [x]
  }

  lemma DedupStep(xs: seq<nat>, k: nat)
    requires k < |xs|
    ensures Dedup(xs[..k + 1]) == if xs[k] in Dedup(xs[..k]) then Dedup(xs[..k]) else Dedup(xs[..k]) + [xs[k]]
  {
    assert xs[..k + 1][..k] == xs[..k];
  }

  /** Nothing is lost and nothing is added. */
  lemma {:induction false} DedupMembers(xs: seq<nat>)
    ensures forall x :: x in Dedup(xs) <==> x in xs
    decreases |xs|
  {
    if xs != [] {
      var front := xs[..|xs| - 1];
      var last := xs[|xs| - 1];
      DedupMembers(front);
      assert xs == front + [last];
      forall x
        ensures x in xs <==> x in front || x == last
      {
      }
    }
  }

  /** No element is kept twice. */
  lemma {:induction false} DedupDistinct(xs: seq<nat>)
    ensures forall i, j :: 0 <= i < j < |Dedup(xs)| ==> Dedup(xs)[i] != Dedup(xs)[j]
    decreases |xs|
  {
    if xs != [] {
      var p := Dedup(xs[..|xs| - 1]);
      var x := xs[|xs| - 1];
      DedupDistinct(xs[..|xs| - 1]);
      if x !in p {
        var r := p + [x];
        forall i, j | 0 <= i < j < |r|
          ensures r[i] != r[j]
        {
          if j == |p| {
            assert r[i] == p[i];
          }
        }
      }
    }
  }

  lemma DedupBelow(xs: seq<nat>, n: nat)
    requires Below(xs, n)
    ensures Below(Dedup(xs), n)
  {
    DedupMembers(xs);
    var r := Dedup(xs);
    forall j | 0 <= j < |r|
      ensures r[j] < n
    {
      assert r[j] in xs;
    }
  }

  /** Each element of a prefix keeps its place: later elements only add to
      the end what is not there already. */
  lemma {:induction false} DedupAppend(a: seq<nat>, b: seq<nat>)
    ensures |Dedup(a)| <= |Dedup(a + b)| && Dedup(a + b)[..|Dedup(a)|] == Dedup(a)
    ensures forall k :: |Dedup(a)| <= k < |Dedup(a + b)| ==> Dedup(a + b)[k] !in a
    decreases |b|
  {
    if b == [] {
      assert a + b == a;
    } else {
      var n := |b| - 1;
      var ab := a + b;
      var da := Dedup(a);
      assert ab[..|ab| - 1] == a + b[..n];
      DedupAppend(a, b[..n]);
      var p := Dedup(a + b[..n]);
      var x := b[n];
      assert ab[|ab| - 1] == x;
      if x !in p {
        var r := p + [x];
        assert r[..|da|] == p[..|da|];
        DedupMembers(a);
        assert x !in da;
      }
    }
  }

  /** The options `help` shows, in the order it shows them. */
  function HelpOrder<T>(t: Tables<T>): (r: seq<nat>)
    requires InRange(t)
    ensures Below(r, |t.opts|)
  {
    TargetsBelow(t);
    DedupBelow(Targets(t), |t.opts|);
    Dedup(Targets(t))
  }

  /** No option is shown twice. */
  lemma HelpOrderDistinct<T>(t: Tables<T>)
    requires InRange(t)
    ensures forall i, j :: 0 <= i < j < |HelpOrder(t)| ==> HelpOrder(t)[i] != HelpOrder(t)[j]
  {
    DedupDistinct(Targets(t));
  }

  /** An option is shown exactly when some short or long name refers to it. */
  lemma HelpOrderCovers<T>(t: Tables<T>, x: nat)
    requires InRange(t)
    ensures x in HelpOrder(t) <==> (exists c :: c in t.shortMap && t.shortMap[c] == x) || (exists s :: s in t.longMap && t.longMap[s] == x)
  {
    var st := Mapped(ShortKeys(t.shortMap), t.shortMap);
    var lt := Mapped(LongKeys(t.longMap), t.longMap);
    assert HelpOrder(t) == Dedup(st + lt);
    DedupMembers(st + lt);
    MappedCovers(ShortKeys(t.shortMap), t.shortMap, x);
    MappedCovers(LongKeys(t.longMap), t.longMap, x);
    assert x in st + lt <==> x in st || x in lt;
  }

  /** In the first occurrences of `a + b`, those of elements of `a` come
      before all others. */
  lemma DedupFrontFirst(a: seq<nat>, b: seq<nat>, i: nat, j: nat)
    requires i < j < |Dedup(a + b)| && Dedup(a + b)[j] in a
    ensures Dedup(a + b)[i] in a
  {
    var da := Dedup(a);
    DedupAppend(a, b);
    DedupMembers(a);
    assert j < |da|;
    assert Dedup(a + b)[i] == da[i];
  }

  lemma HelpOrderShortFirst<T>(t: Tables<T>, i: nat, j: nat, c: char)
    requires InRange(t)
    requires i < j < |HelpOrder(t)|
    requires c in t.shortMap && t.shortMap[c] == HelpOrder(t)[j]
    ensures exists c' :: c' in t.shortMap && t.shortMap[c'] == HelpOrder(t)[i]
  {
    var st := Mapped(ShortKeys(t.shortMap), t.shortMap);
    var lt := Mapped(LongKeys(t.longMap), t.longMap);
    var o := HelpOrder(t);
    assert o == Dedup(st + lt);
    MappedCovers(ShortKeys(t.shortMap), t.shortMap, o[j]);
    DedupFrontFirst(st, lt, i, j);
    MappedCovers(ShortKeys(t.shortMap), t.shortMap, o[i]);
  }

  /** The line of every registered option, by index. */
  function AllLines<T>(t: Tables<T>, locale: string): (r: seq<string>)
    ensures |r| == |t.opts|
  {
    seq(|t.opts|, i requires 0 <= i < |t.opts| => HelpLine(t, i, locale))
  }

  /** `lines` holds the line of every option. */
  predicate LinesFor<T>(t: Tables<T>, lines: seq<string>, locale: string) {
    |lines| == |t.opts| &&
    forall i {:trigger HelpLine(t, i, locale)} :: 0 <= i < |t.opts| ==> lines[i] == HelpLine(t, i, locale)
  }

  /** The lines of the options `xs`, one after the other. */
  function LinesOf(lines: seq<string>, xs: seq<nat>): string
    requires Below(xs, |lines|)
    decreases |xs|
  {
    if xs == [] then ""
    else LinesOf(lines, xs[..|xs| - 1]) + lines[xs[|xs| - 1]]
  }

  lemma LinesOfSnoc(lines: seq<string>, xs: seq<nat>, x: nat)
    requires Below(xs, |lines|) && x < |lines|
    ensures Below(xs + [x], |lines|)
    ensures LinesOf(lines, xs + [x]) == LinesOf(lines, xs) + lines[x]
  {
    assert (xs + [x])[..|xs|] == xs;
  }

  /** `help(os, locale)`: the text written. */
  function HelpText<T>(t: Tables<T>, locale: string): string
    requires InRange(t)
  {
    LinesOf(AllLines(t, locale), HelpOrder(t))
  }

  // ---------------------------------------------------------------
  // The loops that write the text

  /** Appending the next key's word, if it has one, to what came before. */
  lemma WordsNext<K>(keys: seq<K>, m: map<K, nat>, idx: nat, word: K -> string, before: seq<string>, i: nat)
    requires i < |keys|
    ensures before + Words(keys[..i + 1], m, idx, word)
         == (before + Words(keys[..i], m, idx, word)) + (if keys[i] in m && m[keys[i]] == idx then [word(keys[i])] else [])
  {
    WordsStep(keys, m, idx, word, i);
  }

  /** No keys, no words. */
  lemma WordsFrom<K>(keys: seq<K>, m: map<K, nat>, idx: nat, word: K -> string, before: seq<string>)
    ensures before + Words(keys[..0], m, idx, word) == before
    ensures keys[..|keys|] == keys
  {
    assert before + [] == before;
  }

  /** One name loop of `help(ptr, os, locale)`: the word of each key naming
      `idx`, after a comma unless nothing was written before it. */
  method WriteWords<K>(keys: seq<K>, m: map<K, nat>, idx: nat, word: K -> string,
                       ghost before: seq<string>, s0: string, first0: bool)
    returns (s: string, first: bool)
    requires forall k :: k in keys ==> k in m
    requires s0 == Join(before, ",") && (first0 <==> before == [])
    ensures s == Join(before + Words(keys, m, idx, word), ",")
    ensures first <==> before + Words(keys, m, idx, word) == []
  {
    s, first := s0, first0;
    var i := 0;
    WordsFrom(keys, m, idx, word, before);
    ghost var ws := before;
    while i < |keys|
      invariant 0 <= i <= |keys|
      invariant ws == before + Words(keys[..i], m, idx, word)
      invariant s == Join(ws, ",") && (first <==> ws == [])
    {
      var k := keys[i];
      assert k in keys;
      ghost var extra := if m[k] == idx then [word(k)] else [];
      WordsNext(keys, m, idx, word, before, i);
      JoinStep(ws, extra, s, ",");
      if m[k] == idx {
        if first {
          first := false;
        } else {
          s := s + ",";
        }
        s := s + word(k);
      }
      ws := ws + extra;
      i := i + 1;
    }
  }

  /** The two name loops, sharing one `first` flag. */
  lemma NamesParts<T>(t: Tables<T>, idx: nat)
    ensures Names(t, idx) == Join(([] + Words(ShortKeys(t.shortMap), t.shortMap, idx, ShortWord))
                                  + Words(LongKeys(t.longMap), t.longMap, idx, LongWord), ",")
  {
    assert [] + Words(ShortKeys(t.shortMap), t.shortMap, idx, ShortWord) == Words(ShortKeys(t.shortMap), t.shortMap, idx, ShortWord);
  }

  method WriteNames<T>(t: Tables<T>, idx: nat) returns (s: string)
    ensures s == Names(t, idx)
  {
    var sk := ShortKeys(t.shortMap);
    var lk := LongKeys(t.longMap);
    var first;
    NamesParts(t, idx);
    s, first := WriteWords(sk, t.shortMap, idx, ShortWord, [], "", true);
    s, first := WriteWords(lk, t.longMap, idx, LongWord, [] + Words(sk, t.shortMap, idx, ShortWord), s, first);
  }

  /** One description loop: the texts tagged `locale`, separated by spaces,
      and whether any was present. */
  method WriteInLocale(ds: seq<Description>, locale: string) returns (s: string, present: bool)
    ensures s == Join(InLocale(ds, locale), " ")
    ensures present <==> InLocale(ds, locale) != []
  {
    present := false;
    var first := true;
    s := "";
    var i := 0;
    while i < |ds|
      invariant 0 <= i <= |ds|
      invariant s == Join(InLocale(ds[..i], locale), " ")
      invariant present <==> InLocale(ds[..i], locale) != []
      invariant first == !present
    {
      ghost var ws := InLocale(ds[..i], locale);
      InLocaleStep(ds, locale, i);
      JoinStep(ws, if ds[i].locale == locale then [ds[i].desc] else [], s, " ");
      if locale == ds[i].locale {
        present := true;
        if first {
          first := false;
        } else {
          s := s + " ";
        }
        s := s + ds[i].desc;
      }
      i := i + 1;
    }
    assert ds[..i] == ds;
  }

  /** The requested language, then the empty locale tag when nothing was
      present in it. */
  method WriteDescriptions(ds: seq<Description>, locale: string) returns (s: string)
    ensures s == DescText(ds, locale)
  {
    var present;
    s, present := WriteInLocale(ds, locale);
    if !present {
      s, present := WriteInLocale(ds, "");
    }
  }

  /** The default part; a vector's default goes through a `getline` loop. */
  method WriteDefault<T>(o: OptRef<T>) returns (s: string)
    ensures s == DefaultText(o)
  {
    var d := Desc(o).defaultValue;
    s := "";
    if d != "" {
      var shown: string;
      if TypeOf(o) == "vector" {
        var lines := Lines(d);
        var first := true;
        shown := "";
        var i := 0;
        while i < |lines|
          invariant 0 <= i <= |lines|
          invariant shown == Join(Quoted(lines[..i]), ",")
          invariant first <==> i == 0
        {
          var w := "\"" + lines[i] + "\"";
          assert Quoted(lines[..i + 1]) == Quoted(lines[..i]) + [w];
          JoinSnoc(Quoted(lines[..i]), w, ",");
          if first {
            first := false;
          } else {
            shown := shown + ",";
          }
          shown := shown + w;
          i := i + 1;
        }
        assert lines[..i] == lines;
      } else {
        shown := "\"" + d + "\"";
      }
      s := " Default: " + shown + ".";
    }
  }

  /** The parameter marker, chosen by the type string as the source does. */
  method WriteMarker<T>(o: OptRef<T>) returns (marker: string)
    ensures marker == Marker(o)
  {
    marker := "";
    if TypeOf(o) != "counter" {
      if ValueRequired(o) {
        marker := "<mandatory param>";
      } else {
        marker := "<optional param>";
      }
      marker := marker + " ";
    }
  }

  /** `help(ptr, os, locale)`. */
  method WriteHelpLine<T>(t: Tables<T>, idx: nat, locale: string) returns (line: string)
    requires idx < |t.opts|
    ensures line == HelpLine(t, idx, locale)
  {
    var o := t.opts[idx];
    var names := WriteNames(t, idx);
    var marker := WriteMarker(o);
    var desc := WriteDescriptions(Desc(o).description, locale);
    var dflt := WriteDefault(o);
    line := names + " " + marker + desc + dflt + "\n";
  }

  /** The options of `xs`, as a set. */
  function Elems(xs: seq<nat>): set<nat> {
    set x | x in xs
  }

  lemma ElemsSnoc(xs: seq<nat>, x: nat)
    ensures Elems(xs + [x]) == Elems(xs) + {x}
  {
    assert forall y :: y in xs + [x] <==> y in xs || y == x;
  }

  /** After the first `k` options of `xs`: `seen` holds those shown, and
      `text` their lines. */
  predicate Shown<T>(t: Tables<T>, lines: seq<string>, xs: seq<nat>, k: nat, seen: set<nat>, text: string) {
    k <= |xs| && |lines| == |t.opts| && Below(Dedup(xs[..k]), |t.opts|) &&
    seen == Elems(Dedup(xs[..k])) && text == LinesOf(lines, Dedup(xs[..k]))
  }

  /** The body of both loops of `help(os, locale)`: the option `xs[k]`, if
      not shown yet, is remembered and its line written. */
  method ShowOnce<T>(t: Tables<T>, ghost lines: seq<string>, ghost xs: seq<nat>, ghost k: nat, idx: nat,
                     locale: string, seen: set<nat>, text: string)
    returns (seen': set<nat>, text': string)
    requires LinesFor(t, lines, locale) && k < |xs| && xs[k] == idx && idx < |t.opts|
    requires Shown(t, lines, xs, k, seen, text)
    ensures Shown(t, lines, xs, k + 1, seen', text')
  {
    DedupStep(xs, k);
    ghost var order := Dedup(xs[..k]);
    seen', text' := seen, text;
    assert lines[idx] == HelpLine(t, idx, locale);
    if idx !in seen {
      ElemsSnoc(order, idx);
      LinesOfSnoc(lines, order, idx);
      seen' := seen + {idx};
      var line := WriteHelpLine(t, idx, locale);
      text' := text + line;
    }
  }

  /** Only the options visited so far matter. */
  lemma ShownRebase<T>(t: Tables<T>, lines: seq<string>, a: seq<nat>, b: seq<nat>, k: nat, k': nat,
                       seen: set<nat>, text: string)
    requires Shown(t, lines, a, k, seen, text) && k == k' <= |b| && a[..k] == b[..k']
    ensures Shown(t, lines, b, k', seen, text)
  {
  }

  lemma PrefixOfAppend(a: seq<nat>, b: seq<nat>)
    ensures (a + b)[..|a|] == a[..|a|]
  {
  }

  /** The option the `j`-th key refers to, after `prev`. */
  lemma MappedAt<K>(prev: seq<nat>, keys: seq<K>, m: map<K, nat>, j: nat)
    requires forall k :: k in keys ==> k in m
    requires j < |keys|
    ensures keys[j] in m && (prev + Mapped(keys, m))[|prev| + j] == m[keys[j]]
  {
  }

  /** One loop of `help(os, locale)`: over `keys`, each option not shown yet
      is remembered in `seen` and its line written. */
  method ShowEach<T, K>(t: Tables<T>, ghost lines: seq<string>, keys: seq<K>, m: map<K, nat>, locale: string,
                        seen0: set<nat>, ghost prev: seq<nat>, text0: string)
    returns (seen: set<nat>, text: string)
    requires LinesFor(t, lines, locale)
    requires forall k :: k in keys ==> k in m && m[k] < |t.opts|
    requires Shown(t, lines, prev, |prev|, seen0, text0)
    ensures Shown(t, lines, prev + Mapped(keys, m), |prev + Mapped(keys, m)|, seen, text)
  {
    ghost var xs := prev + Mapped(keys, m);
    PrefixOfAppend(prev, Mapped(keys, m));
    ShownRebase(t, lines, prev, xs, |prev|, |prev|, seen0, text0);
    seen, text := seen0, text0;
    var j := 0;
    ghost var k := |prev|;
    while j < |keys|
      invariant 0 <= j <= |keys| && |xs| == |prev| + |keys| && k == |prev| + j
      invariant Shown(t, lines, xs, k, seen, text)
    {
      MappedAt(prev, keys, m, j);
      var idx := m[keys[j]];
      seen, text := ShowOnce(t, lines, xs, k, idx, locale, seen, text);
      j := j + 1;
      k := k + 1;
    }
    ShownRebase(t, lines, xs, xs, k, |xs|, seen, text);
  }

  /** Nothing is shown before the first loop, and every line is at hand. */
  lemma ShowStart<T>(t: Tables<T>, locale: string, st: seq<nat>)
    ensures [] + st == st
    ensures Shown(t, AllLines(t, locale), [], 0, {}, "")
    ensures LinesFor(t, AllLines(t, locale), locale)
  {
    assert [] + st == st;
    assert Elems([]) == {};
  }

  /** Once all the targets are visited, the text is the help text. */
  lemma ShowDone<T>(t: Tables<T>, locale: string, xs: seq<nat>, seen: set<nat>, text: string)
    requires InRange(t)
    requires xs == Mapped(ShortKeys(t.shortMap), t.shortMap) + Mapped(LongKeys(t.longMap), t.longMap)
    requires Shown(t, AllLines(t, locale), xs, |xs|, seen, text)
    ensures text == HelpText(t, locale)
  {
    assert xs == Targets(t);
    assert xs[..|xs|] == xs;
  }

  /** `help(os, locale)`: the line of each option reached through a short
      name, in map order, then of each reached only through long names,
      each option once. */
  method WriteHelp<T>(t: Tables<T>, locale: string) returns (text: string)
    requires InRange(t)
    ensures text == HelpText(t, locale)
  {
    var sk := ShortKeys(t.shortMap);
    var lk := LongKeys(t.longMap);
    ghost var st := Mapped(sk, t.shortMap);
    ghost var xs := st + Mapped(lk, t.longMap);
    ShowStart(t, locale, st);
    ghost var lines := AllLines(t, locale);
    var seen;
    seen, text := ShowEach(t, lines, sk, t.shortMap, locale, {}, [], "");
    seen, text := ShowEach(t, lines, lk, t.longMap, locale, seen, st, text);
    ShowDone(t, locale, xs, seen, text);
  }

}
