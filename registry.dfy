/** The option registry of `options.cpp`: the short-name map, the long-name
    map and the list of options in registration order; how `registerOpt`
    names a new option; and how `process` builds the scanner's option
    string and long-option table, clears every option, dispatches the
    scanner's results and collects the arguments that are not options.
    Options are referred to by their index in the registration list. */
module Registry {
  import opened Wrappers
  import opened Ordering
  import opened Tokenizer
  import opened Options
  import opened Getopt

  // ---------------------------------------------------------------
  // Names

  /** `std::to_string` of a natural number: its decimal digits. */
  function Decimal(n: nat): (r: string)
    ensures r != [] && forall j :: 0 <= j < |r| ==> '0' <= r[j] <= '9'
    decreases n
  {
    var d := (48 + n % 10) as char;
    if n < 10 then [d] else Decimal(n / 10) + [d]
  }

  /** The fallback long name `param-k`. */
  function ParamName(k: nat): (r: string)
    ensures r != [] && forall j :: 0 <= j < |r| ==> IsTokenChar(r[j])
  {
    var r := "param-" + Decimal(k);
    assert forall j :: 6 <= j < |r| ==> r[j] == Decimal(k)[j - 6];
    r
  }

  /** The first index from `from` on whose candidate character is
      alphanumeric and not yet a short name, or -1. */
  function FirstFreeShort(cs: string, used: map<char, nat>, from: nat): (r: int)
    requires from <= |cs|
    ensures r == -1 || from <= r < |cs|
    ensures r >= 0 ==> IsAlnum(cs[r]) && cs[r] !in used
    ensures r >= 0 ==> forall j :: from <= j < r ==> !IsAlnum(cs[j]) || cs[j] in used
    ensures r == -1 ==> forall j :: from <= j < |cs| ==> !IsAlnum(cs[j]) || cs[j] in used
    decreases |cs| - from
  {
    if from == |cs| then -1
    else if IsAlnum(cs[from]) && cs[from] !in used then from
    else FirstFreeShort(cs, used, from + 1)
  }

  /** The first index from `from` on whose token is not yet a long name, or -1. */
  function FirstFreeLong(ts: seq<string>, used: map<string, nat>, from: nat): (r: int)
    requires from <= |ts|
    ensures r == -1 || from <= r < |ts|
    ensures r >= 0 ==> ts[r] !in used && forall j :: from <= j < r ==> ts[j] in used
    ensures r == -1 ==> forall j :: from <= j < |ts| ==> ts[j] in used
    decreases |ts| - from
  {
    if from == |ts| then -1
    else if ts[from] !in used then from
    else FirstFreeLong(ts, used, from + 1)
  }

  /** The first k from `from` below 1000 with `param-k` not yet a long name, or -1. */
  function FirstFreeParam(used: map<string, nat>, from: nat): (r: int)
    requires 1 <= from <= 1000
    ensures r == -1 || from <= r < 1000
    ensures r >= 0 ==> ParamName(r) !in used && forall k :: from <= k < r ==> ParamName(k) in used
    ensures r == -1 ==> forall k :: from <= k < 1000 ==> ParamName(k) in used
    decreases 1000 - from
  {
    if from == 1000 then -1
    else if ParamName(from) !in used then from
    else FirstFreeParam(used, from + 1)
  }

  /** The short map after `registerOpt` has looked for a short name for the
      option with index `idx` and descriptor `d`: its first free candidate. */
  function NewShortMap(sm: map<char, nat>, d: Descriptor, idx: nat): map<char, nat> {
    var si := FirstFreeShort(d.shortOption, sm, 0);
    if si >= 0 then sm[d.shortOption[si] := idx] else sm
  }

  /** The long map after `registerOpt` has looked for a long name: the first
      free candidate token, else `param-k` when no short name was found
      either (`shortFound`), else nothing. */
  function NewLongMap(lm: map<string, nat>, d: Descriptor, idx: nat, shortFound: bool): map<string, nat> {
    var ts := Tokens(d.longOption);
    var li := FirstFreeLong(ts, lm, 0);
    if li >= 0 then lm[ts[li] := idx]
    else if shortFound then lm
    else
      var k := FirstFreeParam(lm, 1);
      if k >= 0 then lm[ParamName(k) := idx] else lm
  }

  /** Both maps after `registerOpt`. */
  function AssignNames(sm: map<char, nat>, lm: map<string, nat>, d: Descriptor, idx: nat): (map<char, nat>, map<string, nat>) {
    (NewShortMap(sm, d, idx), NewLongMap(lm, d, idx, FirstFreeShort(d.shortOption, sm, 0) >= 0))
  }

  /** Short naming: no existing short name is taken over; at most one is
      added, for the new option; it is an alphanumeric candidate; and one is
      added whenever some alphanumeric candidate was free. */
  lemma ShortNaming(sm: map<char, nat>, d: Descriptor, idx: nat)
    ensures var sm' := NewShortMap(sm, d, idx);
      && (forall c :: c in sm ==> c in sm' && sm'[c] == sm[c])
      && (forall c :: c in sm' && c !in sm ==> sm'[c] == idx && IsAlnum(c) && c in d.shortOption)
      && (forall c1, c2 :: c1 in sm' && c1 !in sm && c2 in sm' && c2 !in sm ==> c1 == c2)
      && ((exists j :: 0 <= j < |d.shortOption| && IsAlnum(d.shortOption[j]) && d.shortOption[j] !in sm) <==> sm' != sm)
  {
    var si := FirstFreeShort(d.shortOption, sm, 0);
    if si >= 0 {
      assert d.shortOption[si] in d.shortOption;
      assert d.shortOption[si] in NewShortMap(sm, d, idx);
    }
  }

  /** Long naming: no existing long name is taken over; at most one is added,
      for the new option; it is a candidate token or a `param-k`; and one is
      added whenever some candidate token was free. */
  lemma LongNaming(lm: map<string, nat>, d: Descriptor, idx: nat, shortFound: bool)
    ensures var lm' := NewLongMap(lm, d, idx, shortFound);
      && (forall t :: t in lm ==> t in lm' && lm'[t] == lm[t])
      && (forall t :: t in lm' && t !in lm ==> lm'[t] == idx && (t in Tokens(d.longOption) || exists k :: 1 <= k < 1000 && t == ParamName(k)))
      && (forall t1, t2 :: t1 in lm' && t1 !in lm && t2 in lm' && t2 !in lm ==> t1 == t2)
      && ((exists j :: 0 <= j < |Tokens(d.longOption)| && Tokens(d.longOption)[j] !in lm) ==> lm' != lm)
  {
    var ts := Tokens(d.longOption);
    var li := FirstFreeLong(ts, lm, 0);
    if li >= 0 {
      assert ts[li] in ts;
      assert ts[li] in NewLongMap(lm, d, idx, shortFound);
    } else if !shortFound {
      var k := FirstFreeParam(lm, 1);
      if k >= 0 {
        assert ParamName(k) in NewLongMap(lm, d, idx, shortFound);
      }
    }
  }

  /** `param-k` is assigned only when the option got neither a short nor a
      long name, and it is the smallest free one; when all 999 are taken too,
      the option is registered without any name. */
  lemma ParamFallback(sm: map<char, nat>, lm: map<string, nat>, d: Descriptor, idx: nat)
    ensures var (sm', lm') := AssignNames(sm, lm, d, idx);
      && (sm' == sm && (forall j :: 0 <= j < |Tokens(d.longOption)| ==> Tokens(d.longOption)[j] in lm) ==>
            if FirstFreeParam(lm, 1) >= 0 then lm' == lm[ParamName(FirstFreeParam(lm, 1)) := idx]
            else lm' == lm)
      && (sm' == sm && lm' == lm ==> forall k :: 1 <= k < 1000 ==> ParamName(k) in lm)
  {
    ShortNaming(sm, d, idx);
    var si := FirstFreeShort(d.shortOption, sm, 0);
    if si >= 0 {
      assert d.shortOption[si] !in sm;
    }
  }

  // ---------------------------------------------------------------
  // The registry

  /** The registry's maps and list, as values. */
  datatype Tables<T> = Tables(opts: seq<OptRef<T>>, shortMap: map<char, nat>, longMap: map<string, nat>)

  /** Every short name is alphanumeric and names one of the first `n`
      options, and no option has two. */
  predicate ShortMapOk(sm: map<char, nat>, n: nat) {
    && (forall c :: c in sm ==> sm[c] < n && IsAlnum(c))
    && (forall c1, c2 :: c1 in sm && c2 in sm && sm[c1] == sm[c2] ==> c1 == c2)
  }

  /** Every long name is a non-empty run of token characters and names one of
      the first `n` options, and no option has two. */
  predicate LongMapOk(lm: map<string, nat>, n: nat) {
    && (forall s :: s in lm ==> lm[s] < n && s != [] && forall j :: 0 <= j < |s| ==> IsTokenChar(s[j]))
    && (forall s1, s2 :: s1 in lm && s2 in lm && lm[s1] == lm[s2] ==> s1 == s2)
  }

  /** Each option object is registered once. */
  predicate Distinct<T>(opts: seq<OptRef<T>>) {
    forall i, j :: 0 <= i < j < |opts| ==> Obj(opts[i]) != Obj(opts[j])
  }

  /** The invariant `registerOpt` keeps. */
  predicate WellFormed<T>(t: Tables<T>) {
    ShortMapOk(t.shortMap, |t.opts|) && LongMapOk(t.longMap, |t.opts|) && Distinct(t.opts)
  }

  lemma ShortNamingKeeps(sm: map<char, nat>, d: Descriptor, n: nat)
    requires ShortMapOk(sm, n)
    ensures ShortMapOk(NewShortMap(sm, d, n), n + 1)
  {
    ShortNaming(sm, d, n);
  }

  lemma LongNamingKeeps(lm: map<string, nat>, d: Descriptor, n: nat, shortFound: bool)
    requires LongMapOk(lm, n)
    ensures LongMapOk(NewLongMap(lm, d, n, shortFound), n + 1)
  {
    LongNaming(lm, d, n, shortFound);
    TokensAreWellFormed(d.longOption);
    var lm' := NewLongMap(lm, d, n, shortFound);
    forall s | s in lm' && s !in lm
      ensures s != [] && forall j :: 0 <= j < |s| ==> IsTokenChar(s[j])
    {
      if s !in Tokens(d.longOption) {
        var k :| 1 <= k < 1000 && s == ParamName(k);
      } else {
        var j :| 0 <= j < |Tokens(d.longOption)| && Tokens(d.longOption)[j] == s;
      }
    }
  }

  lemma DistinctAppend<T>(opts: seq<OptRef<T>>, o: OptRef<T>)
    requires Distinct(opts)
    requires forall i :: 0 <= i < |opts| ==> Obj(opts[i]) != Obj(o)
    ensures Distinct(opts + [o])
  {
    var opts' := opts + [o];
    forall i, j | 0 <= i < j < |opts'|
      ensures Obj(opts'[i]) != Obj(opts'[j])
    {
      assert opts'[i] == opts[i];
      if j < |opts| {
        assert opts'[j] == opts[j];
      }
    }
  }

  /** Registering an option keeps the invariant. */
  lemma RegisterKeepsWellFormed<T>(t: Tables<T>, o: OptRef<T>)
    requires WellFormed(t)
    requires forall i :: 0 <= i < |t.opts| ==> Obj(t.opts[i]) != Obj(o)
    ensures var (sm', lm') := AssignNames(t.shortMap, t.longMap, Desc(o), |t.opts|);
      WellFormed(Tables(t.opts + [o], sm', lm'))
  {
    var n := |t.opts|;
    ShortNamingKeeps(t.shortMap, Desc(o), n);
    LongNamingKeeps(t.longMap, Desc(o), n, FirstFreeShort(Desc(o).shortOption, t.shortMap, 0) >= 0);
    DistinctAppend(t.opts, o);
  }

  /** The candidate loop over the short names (`for (const char & c : ...)`). */
  method FindFreeShort(cs: string, used: map<char, nat>) returns (r: int)
    ensures r == FirstFreeShort(cs, used, 0)
  {
    r := -1;
    var i := 0;
    while i < |cs|
      invariant 0 <= i <= |cs|
      invariant FirstFreeShort(cs, used, 0) == FirstFreeShort(cs, used, i)
    {
      if IsAlnum(cs[i]) && cs[i] !in used {
        r := i;
        break;
      }
      i := i + 1;
    }
  }

  /** The candidate loop over the long-name tokens. */
  method FindFreeLong(ts: seq<string>, used: map<string, nat>) returns (r: int)
    ensures r == FirstFreeLong(ts, used, 0)
  {
    r := -1;
    var i := 0;
    while i < |ts|
      invariant 0 <= i <= |ts|
      invariant FirstFreeLong(ts, used, 0) == FirstFreeLong(ts, used, i)
    {
      if ts[i] !in used {
        r := i;
        break;
      }
      i := i + 1;
    }
  }

  /** The loop `for (unsigned int k = 1; k < 1000; k++)` over `param-k`. */
  method FindFreeParam(used: map<string, nat>) returns (r: int)
    ensures r == FirstFreeParam(used, 1)
  {
    r := -1;
    var k := 1;
    while k < 1000
      invariant 1 <= k <= 1000
      invariant FirstFreeParam(used, 1) == FirstFreeParam(used, k)
    {
      var name := "param-" + Decimal(k);
      if name !in used {
        r := k;
        break;
      }
      k := k + 1;
    }
  }

  /** The naming part of `registerOpt` for the option with index `idx`:
      the short candidates, then the long tokens, then `param-k`. */
  method Name(shortMap: map<char, nat>, longMap: map<string, nat>, d: Descriptor, idx: nat)
    returns (sm: map<char, nat>, lm: map<string, nat>)
    ensures (sm, lm) == AssignNames(shortMap, longMap, d, idx)
  {
    sm, lm := shortMap, longMap;
    var found := false;
    var si := FindFreeShort(d.shortOption, sm);
    if si >= 0 {
      sm := sm[d.shortOption[si] := idx];
      found := true;
    }
    var tokens := Tokenize(d.longOption, []);
    assert tokens == Tokens(d.longOption);
    var li := FindFreeLong(tokens, lm);
    if li >= 0 {
      lm := lm[tokens[li] := idx];
      found := true;
    }
    if !found {
      var k := FindFreeParam(lm);
      if k >= 0 {
        lm := lm[ParamName(k) := idx];
      }
    }
  }

  // ---------------------------------------------------------------
  // process: what the scanner is given

  /** The argument kind of an option in the scanner's terms: none for a
      counter, else required or optional as `isValueRequired()` says. */
  function ArgKindOf<T>(o: OptRef<T>): (k: ArgKind)
    ensures k == NoArgument <==> o.CounterRef?
    ensures k == RequiredArgument <==> !o.CounterRef? && ValueRequired(o)
  {
    if TypeOf(o) == "counter" then NoArgument
    else if ValueRequired(o) then RequiredArgument
    else OptionalArgument
  }

  /** The short names in the order `std::map<char, …>` visits them. */
  function ShortKeys(sm: map<char, nat>): (r: seq<char>)
    ensures |r| == |sm| && (forall c :: c in r <==> c in sm)
    ensures forall i, j :: 0 <= i < j < |r| ==> r[i] < r[j]
  {
    CharLeTotal();
    Ascending(sm.Keys, CharLe)
  }

  /** The long names in the order `std::map<std::string, …>` visits them. */
  function LongKeys(lm: map<string, nat>): (r: seq<string>)
    ensures |r| == |lm| && (forall s :: s in r <==> s in lm)
    ensures forall i, j :: 0 <= i < j < |r| ==> r[i] != r[j]
  {
    LexLeTotal();
    Ascending(lm.Keys, LexLe)
  }

  /** They are in ascending lexicographic order. */
  lemma LongKeysAscending(lm: map<string, nat>)
    ensures StrictlyAscending(LongKeys(lm), LexLe)
  {
    LexLeTotal();
    assert LongKeys(lm) == Ascending(lm.Keys, LexLe);
  }

  /** Every name of the maps refers to a registered option. */
  predicate InRange<T>(t: Tables<T>) {
    && (forall c :: c in t.shortMap ==> t.shortMap[c] < |t.opts|)
    && (forall s :: s in t.longMap ==> t.longMap[s] < |t.opts|)
  }

  /** The option string's entries: each short name, ascending, with its
      option's argument kind. */
  function ShortEntries<T>(t: Tables<T>): (es: seq<(char, ArgKind)>)
    requires InRange(t)
    ensures |es| == |t.shortMap|
    ensures forall i :: 0 <= i < |es| ==> es[i].0 in t.shortMap && es[i].1 == ArgKindOf(t.opts[t.shortMap[es[i].0]])
  {
    var keys := ShortKeys(t.shortMap);
    seq(|keys|, i requires 0 <= i < |keys| => (keys[i], ArgKindOf(t.opts[t.shortMap[keys[i]]])))
  }

  /** `shortOptionsString`: a leading `:` (so that a missing argument is
      reported as `:` rather than `?`, as POSIX `getopt` specifies) and then
      the entries. */
  function ShortSpec<T>(t: Tables<T>): string
    requires InRange(t)
  {
    ":" + EncodeShort(ShortEntries(t))
  }

  /** The option string's characters ascend strictly. */
  lemma ShortEntriesAscending<T>(t: Tables<T>)
    requires InRange(t)
    ensures var es := ShortEntries(t);
      forall i, j :: 0 <= i < j < |es| ==> es[i].0 < es[j].0
  {
    var es := ShortEntries(t);
    var keys := ShortKeys(t.shortMap);
    forall i, j | 0 <= i < j < |es|
      ensures es[i].0 < es[j].0
    {
      assert es[i].0 == keys[i] && es[j].0 == keys[j];
    }
  }

  /** Every short name has an entry in the option string. */
  lemma ShortEntriesCover<T>(t: Tables<T>, c: char)
    requires InRange(t) && c in t.shortMap
    ensures exists i :: 0 <= i < |ShortEntries(t)| && ShortEntries(t)[i].0 == c
  {
    var keys := ShortKeys(t.shortMap);
    var i :| 0 <= i < |keys| && keys[i] == c;
    assert ShortEntries(t)[i].0 == c;
  }

  /** The scanner reads back from the option string exactly the entries,
      after the leading `:`. */
  lemma ShortSpecMeaning<T>(t: Tables<T>)
    requires InRange(t) && ShortMapOk(t.shortMap, |t.opts|)
    ensures ShortSpec(t)[0] == ':'
    ensures DecodeShort(ShortSpec(t)[1..]) == ShortEntries(t)
  {
    var es := ShortEntries(t);
    forall i | 0 <= i < |es|
      ensures es[i].0 != ':'
    {
      assert IsAlnum(es[i].0);
    }
    DecodeEncodeShort(es);
    assert ShortSpec(t)[1..] == EncodeShort(es);
  }

  /** `longOptionsVector` without its terminating null entry: one entry per
      long name, ascending, with its option's argument kind. */
  function LongTable<T>(t: Tables<T>): (r: seq<LongOption>)
    requires InRange(t)
    ensures |r| == |t.longMap|
    ensures forall i :: 0 <= i < |r| ==> r[i].name in t.longMap && r[i].hasArg == ArgKindOf(t.opts[t.longMap[r[i].name]])
  {
    var keys := LongKeys(t.longMap);
    seq(|keys|, i requires 0 <= i < |keys| => LongOption(keys[i], ArgKindOf(t.opts[t.longMap[keys[i]]])))
  }

  /** The names of the long table ascend strictly. */
  lemma LongTableAscending<T>(t: Tables<T>)
    requires InRange(t)
    ensures var r := LongTable(t);
      forall i, j :: 0 <= i < j < |r| ==> LexLe(r[i].name, r[j].name) && r[i].name != r[j].name
  {
    var r := LongTable(t);
    var keys := LongKeys(t.longMap);
    LongKeysAscending(t.longMap);
    forall i, j | 0 <= i < j < |r|
      ensures LexLe(r[i].name, r[j].name) && r[i].name != r[j].name
    {
      assert r[i].name == keys[i] && r[j].name == keys[j];
    }
  }

  /** Every long name has an entry in the long table. */
  lemma LongTableCovers<T>(t: Tables<T>, s: string)
    requires InRange(t) && s in t.longMap
    ensures exists i :: 0 <= i < |LongTable(t)| && LongTable(t)[i].name == s
  {
    var keys := LongKeys(t.longMap);
    var i :| 0 <= i < |keys| && keys[i] == s;
    assert LongTable(t)[i].name == s;
  }

  // ---------------------------------------------------------------
  // process: dispatching the scanner's results

  /** A return value that `std::isalnum` accepts (a short option). */
  predicate IsShortCode(ret: int) {
    0 <= ret < 128 && IsAlnum(ret as char)
  }

  /** The states of all options, one per registered option and each of its
      kind. */
  predicate StatesFit<T>(opts: seq<OptRef<T>>, sts: seq<OptState<T>>) {
    |sts| == |opts| && forall i :: 0 <= i < |opts| ==> Fits(opts[i], sts[i])
  }

  /** The option a short (`IsShortCode`) or long (0) result names, if it
      names one: the short map at the character, or the long map at the
      table entry's name. */
  function Target<T>(t: Tables<T>, table: seq<LongOption>, e: ScanResult): (r: Option<nat>)
    requires InRange(t)
    requires e.ret == 0 ==> 0 <= e.optionIndex < |table|
    ensures r.Some? ==> r.value < |t.opts|
    ensures r.Some? ==> IsShortCode(e.ret) || e.ret == 0
    ensures IsShortCode(e.ret) ==> r == (if e.ret as char in t.shortMap then Some(t.shortMap[e.ret as char]) else None)
  {
    if IsShortCode(e.ret) then
      var c := e.ret as char;
      if c in t.shortMap then Some(t.shortMap[c]) else None
    else if e.ret == 0 then
      var name := table[e.optionIndex].name;
      if name in t.longMap then Some(t.longMap[name]) else None
    else None
  }

  /** The result of the dispatch loop: the options' states and the code. */
  datatype Outcome<T> = Outcome(states: seq<OptState<T>>, code: int)

  /** What one result other than -1 does: the options' states after it, and
      whether the loop goes on or returns the code. */
  datatype Step<T> = Continue(states: seq<OptState<T>>) | Stop(states: seq<OptState<T>>, code: int)

  /** One pass of the dispatch loop of `process` on a result other than -1:
      a named option gets `setValue(optarg)`, or `setValue("")` without an
      argument, and a non-zero code stops the loop with -3; `?` stops it with
      -1 and `:` with -2; a short option with no name and any other value are
      skipped. */
  function StepOf<T>(t: Tables<T>, table: seq<LongOption>, e: ScanResult, sts: seq<OptState<T>>): (r: Step<T>)
    requires InRange(t) && StatesFit(t.opts, sts)
    requires e.ret == 0 ==> 0 <= e.optionIndex < |table|
    ensures StatesFit(t.opts, r.states)
    ensures r.Stop? ==> r.code == -1 || r.code == -2 || r.code == -3
  {
    if IsShortCode(e.ret) || e.ret == 0 then
      match Target(t, table, e)
      case None => Continue(sts)
      case Some(i) =>
        var (st, code) := SetValueOf(t.opts[i], sts[i], e.optarg.GetOr(""));
        if code != 0 then Stop(sts[i := st], -3) else Continue(sts[i := st])
    else if e.ret == '?' as int then Stop(sts, -1)
    else if e.ret == ':' as int then Stop(sts, -2)
    else Continue(sts)
  }

  /** The dispatch loop of `process` over the scanner's results: it ends
      with 0 at -1 (or when the results run out) and otherwise goes on as
      each result's step says. */
  function Dispatch<T>(t: Tables<T>, table: seq<LongOption>, rs: seq<ScanResult>, sts: seq<OptState<T>>): (out: Outcome<T>)
    requires InRange(t) && StatesFit(t.opts, sts) && IndicesInRange(rs, |table|)
    ensures StatesFit(t.opts, out.states)
    ensures out.code == 0 || out.code == -1 || out.code == -2 || out.code == -3
    decreases |rs|
  {
    if rs == [] || rs[0].ret == -1 then Outcome(sts, 0)
    else
      IndicesTail(rs, |table|);
      var step := StepOf(t, table, rs[0], sts);
      if step.Stop? then Outcome(step.states, step.code) else Dispatch(t, table, rs[1..], step.states)
  }

  /** The arguments the results up to the end give option `i`, in order:
      `optarg`, or the empty text when there is none. */
  function Hits<T>(t: Tables<T>, table: seq<LongOption>, rs: seq<ScanResult>, i: nat): seq<string>
    requires InRange(t) && IndicesInRange(rs, |table|)
    decreases |rs|
  {
    if rs == [] || rs[0].ret == -1 then []
    else
      IndicesTail(rs, |table|);
      var rest := Hits(t, table, rs[1..], i);
      if Target(t, table, rs[0]) == Some(i) then [rs[0].optarg.GetOr("")] + rest else rest
  }

  /** No result before the end is -1. */
  predicate NoEnd(rs: seq<ScanResult>) {
    forall k :: 0 <= k < |rs| ==> rs[k].ret != -1
  }

  lemma IndicesTail(rs: seq<ScanResult>, n: nat)
    requires rs != [] && IndicesInRange(rs, n)
    ensures IndicesInRange(rs[1..], n)
  {
    forall k | 0 <= k < |rs[1..]|
      ensures rs[1..][k] == rs[k + 1]
    {
    }
  }

  lemma IndicesAppend(a: seq<ScanResult>, b: seq<ScanResult>, n: nat)
    requires IndicesInRange(a, n) && IndicesInRange(b, n)
    ensures IndicesInRange(a + b, n)
  {
    forall k | 0 <= k < |a + b|
      ensures (a + b)[k] == if k < |a| then a[k] else b[k - |a|]
    {
    }
  }

  /** When dispatch ends normally, each option's final state is its state
      before, with `setValue` applied to the arguments of the results naming
      it, in order; in particular an option no result names keeps its
      (cleared) state. */
  lemma {:induction false} DispatchFold<T>(t: Tables<T>, table: seq<LongOption>, rs: seq<ScanResult>, sts: seq<OptState<T>>, i: nat)
    requires InRange(t) && StatesFit(t.opts, sts) && IndicesInRange(rs, |table|) && i < |t.opts|
    requires Dispatch(t, table, rs, sts).code == 0
    ensures Dispatch(t, table, rs, sts).states[i] == SetAll(t.opts[i], sts[i], Hits(t, table, rs, i))
    decreases |rs|
  {
    if rs != [] && rs[0].ret != -1 {
      var e := rs[0];
      IndicesTail(rs, |table|);
      var step := StepOf(t, table, e, sts);
      DispatchFold(t, table, rs[1..], step.states, i);
      if Target(t, table, e) == Some(i) {
        SetAllCons(t.opts[i], sts[i], e.optarg.GetOr(""), Hits(t, table, rs[1..], i));
      }
    }
  }

  /** Dispatch over results `a` that end neither the scan nor the dispatch,
      followed by `b`, is dispatch over `b` from the states `a` left. */
  lemma {:induction false} DispatchAppend<T>(t: Tables<T>, table: seq<LongOption>, a: seq<ScanResult>, b: seq<ScanResult>, sts: seq<OptState<T>>)
    requires InRange(t) && StatesFit(t.opts, sts)
    requires IndicesInRange(a, |table|) && IndicesInRange(b, |table|)
    requires NoEnd(a) && Dispatch(t, table, a, sts).code == 0
    ensures IndicesInRange(a + b, |table|)
    ensures Dispatch(t, table, a + b, sts) == Dispatch(t, table, b, Dispatch(t, table, a, sts).states)
    decreases |a|
  {
    IndicesAppend(a, b, |table|);
    if a != [] {
      assert (a + b)[0] == a[0] && (a + b)[1..] == a[1..] + b;
      IndicesTail(a, |table|);
      DispatchAppend(t, table, a[1..], b, StepOf(t, table, a[0], sts).states);
    } else {
      assert a + b == b;
    }
  }

  /** Dispatch over a result followed by more. */
  lemma DispatchHead<T>(t: Tables<T>, table: seq<LongOption>, e: ScanResult, b: seq<ScanResult>, sts: seq<OptState<T>>)
    requires InRange(t) && StatesFit(t.opts, sts)
    requires IndicesInRange(b, |table|) && (e.ret == 0 ==> 0 <= e.optionIndex < |table|)
    ensures IndicesInRange([e] + b, |table|)
    ensures e.ret == -1 ==> Dispatch(t, table, [e] + b, sts) == Outcome(sts, 0)
    ensures e.ret != -1 ==> var step := StepOf(t, table, e, sts);
      Dispatch(t, table, [e] + b, sts) == if step.Stop? then Outcome(step.states, step.code) else Dispatch(t, table, b, step.states)
  {
    var eb := [e] + b;
    assert eb[0] == e && eb[1..] == b;
    forall k | 0 <= k < |eb| && eb[k].ret == 0
      ensures 0 <= eb[k].optionIndex < |table|
    {
      if k > 0 {
        assert eb[k] == b[k - 1];
      }
    }
  }

  /** Each way the dispatch loop stops, after results `a` that did not stop
      it: -1 ends it with 0, `?` returns -1 and `:` returns -2, all keeping
      the updates `a` made and nothing after them. */
  lemma DispatchStops<T>(t: Tables<T>, table: seq<LongOption>, a: seq<ScanResult>, e: ScanResult, b: seq<ScanResult>, sts: seq<OptState<T>>)
    requires InRange(t) && StatesFit(t.opts, sts)
    requires IndicesInRange(a, |table|) && IndicesInRange(b, |table|)
    requires NoEnd(a) && Dispatch(t, table, a, sts).code == 0
    requires e.ret == -1 || e.ret == '?' as int || e.ret == ':' as int
    ensures IndicesInRange(a + [e] + b, |table|)
    ensures Dispatch(t, table, a + [e] + b, sts)
      == Outcome(Dispatch(t, table, a, sts).states, if e.ret == -1 then 0 else if e.ret == '?' as int then -1 else -2)
  {
    DispatchHead(t, table, e, b, Dispatch(t, table, a, sts).states);
    DispatchAppend(t, table, a, [e] + b, sts);
    assert a + [e] + b == a + ([e] + b);
  }

  /** A `setValue` that fails returns -3 at once, keeping the updates of the
      results before it and the failed call's own update. */
  lemma DispatchFails<T>(t: Tables<T>, table: seq<LongOption>, a: seq<ScanResult>, e: ScanResult, b: seq<ScanResult>, sts: seq<OptState<T>>)
    requires InRange(t) && StatesFit(t.opts, sts)
    requires IndicesInRange(a, |table|) && IndicesInRange(b, |table|) && (e.ret == 0 ==> 0 <= e.optionIndex < |table|)
    requires NoEnd(a) && Dispatch(t, table, a, sts).code == 0
    requires Target(t, table, e).Some?
    requires var i := Target(t, table, e).value; var before := Dispatch(t, table, a, sts).states;
      SetValueOf(t.opts[i], before[i], e.optarg.GetOr("")).1 != 0
    ensures IndicesInRange(a + [e] + b, |table|)
    ensures var i := Target(t, table, e).value; var before := Dispatch(t, table, a, sts).states;
      Dispatch(t, table, a + [e] + b, sts) == Outcome(before[i := SetValueOf(t.opts[i], before[i], e.optarg.GetOr("")).0], -3)
  {
    DispatchHead(t, table, e, b, Dispatch(t, table, a, sts).states);
    DispatchAppend(t, table, a, [e] + b, sts);
    assert a + [e] + b == a + ([e] + b);
  }

  /** The options' states after the `clear()` loop of `process`. */
  function ClearAll<T>(opts: seq<OptRef<T>>, sts: seq<OptState<T>>): (r: seq<OptState<T>>)
    requires StatesFit(opts, sts)
    ensures StatesFit(opts, r)
  {
    seq(|opts|, i requires 0 <= i < |opts| => ClearOf(opts[i], sts[i]))
  }

  lemma TakeSnoc<X>(s: seq<X>, i: nat)
    requires i < |s|
    ensures s[..i + 1] == s[..i] + [s[i]]
  {
  }

  lemma TakeWhole<X>(s: seq<X>, i: nat)
    requires i == |s|
    ensures s[..i] == s
  {
  }

  lemma SpecStep(spec: string, es: seq<(char, ArgKind)>, i: nat)
    requires i < |es| && spec == ":" + EncodeShort(es[..i])
    ensures spec + ([es[i].0] + Suffix(es[i].1)) == ":" + EncodeShort(es[..i + 1])
  {
    TakeSnoc(es, i);
    EncodeShortSnoc(es[..i], es[i]);
  }

  /** One step of that loop: the character, then `:` for an option with an
      argument, then another `:` when the argument is optional. */
  method ShortSpecEntry<T>(c: char, o: OptRef<T>) returns (piece: string)
    ensures piece == [c] + Suffix(ArgKindOf(o))
  {
    piece := [c];
    if TypeOf(o) != "counter" {
      piece := piece + ":";
      if !ValueRequired(o) {
        piece := piece + ":";
      }
    }
  }

  /** The loop of `process` that builds `shortOptionsString`. */
  method BuildShortSpec<T>(t: Tables<T>) returns (spec: string)
    requires InRange(t)
    ensures spec == ShortSpec(t)
  {
    var keys := ShortKeys(t.shortMap);
    ghost var es := ShortEntries(t);
    spec := ":";
    var i := 0;
    while i < |keys|
      invariant 0 <= i <= |keys| == |es|
      invariant spec == ":" + EncodeShort(es[..i])
    {
      ShortEntryAt(t, i);
      var c := keys[i];
      var piece := ShortSpecEntry(c, t.opts[t.shortMap[c]]);
      SpecStep(spec, es, i);
      spec := spec + piece;
      i := i + 1;
    }
    TakeWhole(es, i);
  }

  /** The entry of the option string at `i`. */
  lemma ShortEntryAt<T>(t: Tables<T>, i: nat)
    requires InRange(t) && i < |t.shortMap|
    ensures var keys := ShortKeys(t.shortMap);
      && keys[i] in t.shortMap && t.shortMap[keys[i]] < |t.opts|
      && ShortEntries(t)[i] == (keys[i], ArgKindOf(t.opts[t.shortMap[keys[i]]]))
  {
    var keys := ShortKeys(t.shortMap);
    assert keys[i] in keys;
  }

  /** The entry of the long table at `i`. */
  lemma LongTableAt<T>(t: Tables<T>, i: nat)
    requires InRange(t) && i < |t.longMap|
    ensures var keys := LongKeys(t.longMap);
      && keys[i] in t.longMap && t.longMap[keys[i]] < |t.opts|
      && LongTable(t)[i] == LongOption(keys[i], ArgKindOf(t.opts[t.longMap[keys[i]]]))
  {
    var keys := LongKeys(t.longMap);
    assert keys[i] in keys;
  }

  /** The argument kind `process` gives the long option of `o`: none for a
      counter, else required or optional. */
  method LongKind<T>(o: OptRef<T>) returns (k: ArgKind)
    ensures k == ArgKindOf(o)
  {
    if TypeOf(o) == "counter" {
      k := NoArgument;
    } else if ValueRequired(o) {
      k := RequiredArgument;
    } else {
      k := OptionalArgument;
    }
  }

  /** The loop of `process` that builds `longOptionsVector` (the null entry
      that ends it is implicit in the table's length). */
  method BuildLongTable<T>(t: Tables<T>) returns (table: seq<LongOption>)
    requires InRange(t)
    ensures table == LongTable(t)
  {
    var keys := LongKeys(t.longMap);
    ghost var full := LongTable(t);
    table := [];
    var i := 0;
    while i < |keys|
      invariant 0 <= i <= |keys| == |full|
      invariant table == full[..i]
    {
      LongTableAt(t, i);
      var name := keys[i];
      var kind := LongKind(t.opts[t.longMap[name]]);
      TakeSnoc(full, i);
      table := table + [LongOption(name, kind)];
      i := i + 1;
    }
    TakeWhole(full, i);
  }

  /** The tail of the results after `k`. */
  lemma DispatchNext<T>(rs: seq<ScanResult>, k: nat, n: nat)
    requires k < |rs| && IndicesInRange(rs[k..], n)
    ensures rs[k..][0] == rs[k] && rs[k..][1..] == rs[k + 1..]
    ensures IndicesInRange(rs[k + 1..], n)
    ensures rs[k].ret == 0 ==> 0 <= rs[k].optionIndex < n
  {
    IndicesTail(rs[k..], n);
  }

  /** Dispatch from the result at `k` on: that result's step, then, unless
      it stopped the loop, the results after it. */
  lemma DispatchAt<T>(t: Tables<T>, table: seq<LongOption>, rs: seq<ScanResult>, k: nat, sts: seq<OptState<T>>)
    requires k < |rs| && rs[k].ret != -1
    requires InRange(t) && StatesFit(t.opts, sts) && IndicesInRange(rs[k..], |table|)
    ensures IndicesInRange(rs[k + 1..], |table|)
    ensures rs[k].ret == 0 ==> 0 <= rs[k].optionIndex < |table|
    ensures var step := StepOf(t, table, rs[k], sts);
      Dispatch(t, table, rs[k..], sts) == if step.Stop? then Outcome(step.states, step.code) else Dispatch(t, table, rs[k + 1..], step.states)
  {
    DispatchNext<T>(rs, k, |table|);
  }

  /** The option string and the long table of `process`, handed with
      `argv` to the scanner. */
  method Scanned<T>(t: Tables<T>, argv: seq<string>, scan: Scanner) returns (table: seq<LongOption>, sc: Scan, rest: seq<string>)
    requires InRange(t)
    ensures table == LongTable(t) && sc == ScanOf(t, argv, scan) && rest == sc.rest
  {
    var spec := BuildShortSpec(t);
    table := BuildLongTable(t);
    sc := scan(argv, spec, table);
    rest := Leftovers(sc.rest);
  }

  /** The loop of `process` that appends `argv[optind]`, `argv[optind + 1]`,
      ... to `noOptions` (starting from an empty vector): the arguments
      `rest` after the options, in order. */
  method Leftovers(rest: seq<string>) returns (left: seq<string>)
    ensures left == rest
  {
    left := [];
    var j := 0;
    while j < |rest|
      invariant 0 <= j <= |rest|
      invariant left == rest[..j]
    {
      TakeSnoc(rest, j);
      left := left + [rest[j]];
      j := j + 1;
    }
    TakeWhole(rest, j);
  }

  /** What the scanner reports for `argv`, given the option string and the
      long table of the registry's tables. */
  function ScanOf<T>(t: Tables<T>, argv: seq<string>, scan: Scanner): Scan
    requires InRange(t)
  {
    scan(argv, ShortSpec(t), LongTable(t))
  }

  /** The scanner keeps its promise about `option_index`. */
  predicate ScanFits<T>(t: Tables<T>, argv: seq<string>, scan: Scanner)
    requires InRange(t)
  {
    IndicesInRange(ScanOf(t, argv, scan).results, |LongTable(t)|)
  }

  /** What `process` leaves, from the registry's tables and the options'
      states before it: the outcome of dispatching the scanner's results
      over the cleared states, and the arguments after the options when
      that outcome is 0 (nothing otherwise). */
  function Processed<T>(t: Tables<T>, argv: seq<string>, scan: Scanner, sts: seq<OptState<T>>): (Outcome<T>, seq<string>)
    requires InRange(t) && StatesFit(t.opts, sts) && ScanFits(t, argv, scan)
  {
    var sc := ScanOf(t, argv, scan);
    var out := Dispatch(t, LongTable(t), sc.results, ClearAll(t.opts, sts));
    (out, if out.code == 0 then sc.rest else [])
  }

  /** The state of each of the options `os`. */
  ghost function StatesOf<T>(os: seq<OptRef<T>>): (r: seq<OptState<T>>)
    reads set i | 0 <= i < |os| :: Obj(os[i])
    ensures StatesFit(os, r)
  {
    seq(|os|, i requires 0 <= i < |os| reads set j | 0 <= j < |os| :: Obj(os[j]) => StateOf(os[i]))
  }

  /** The registry: `getShortOptionMap()`, `getLongOptionMap()`,
      `getOptionMap()` and `getNotOption()`. */
  class Registry<T> {
    var shortMap: map<char, nat>
    var longMap: map<string, nat>
    var opts: seq<OptRef<T>>
    var notOption: seq<string>

    function Contents(): Tables<T>
      reads this`opts, this`shortMap, this`longMap
    {
      Tables(opts, shortMap, longMap)
    }

    ghost predicate Valid()
      reads this`opts, this`shortMap, this`longMap
    {
      WellFormed(Contents())
    }

    /** What dispatching needs of the registry: the maps name registered
        options, and no option object is registered twice. */
    ghost predicate Sound()
      reads this`opts, this`shortMap, this`longMap
    {
      InRange(Contents()) && Distinct(opts)
    }

    lemma ValidIsSound()
      requires Valid()
      ensures Sound()
    {
    }

    /** The option objects. */
    ghost function Footprint(): set<object>
      reads this`opts
    {
      set i | 0 <= i < |opts| :: Obj(opts[i])
    }

    /** The state of every registered option, in registration order. */
    ghost function States(): (r: seq<OptState<T>>)
      reads this`opts, Footprint()
      ensures StatesFit(opts, r)
    {
      StatesOf(opts)
    }

    constructor ()
      ensures Valid() && opts == [] && shortMap == map[] && longMap == map[] && notOption == []
    {
      shortMap, longMap, opts, notOption := map[], map[], [], [];
    }

    /** `interface::registerOpt`: the option is appended to the list and named.
        Only a newly constructed option registers (each kind's constructor
        runs `init`, which registers `this`), so it is not in the list yet. */
    method Register(o: OptRef<T>)
      requires Valid()
      requires Obj(o) !in Footprint()
      modifies this
      ensures Valid()
      ensures opts == old(opts) + [o] && notOption == old(notOption)
      ensures (shortMap, longMap) == AssignNames(old(shortMap), old(longMap), Desc(o), |old(opts)|)
    {
      ghost var t := Contents();
      NotRegistered(o);
      RegisterKeepsWellFormed(t, o);
      var sm, lm := Name(shortMap, longMap, Desc(o), |opts|);
      opts, shortMap, longMap := opts + [o], sm, lm;
      assert Contents() == Tables(t.opts + [o], sm, lm);
    }

    /** The registry is not one of its options. */
    lemma OutsideFootprint()
      ensures this !in Footprint()
    {
    }

    /** An object outside the footprint is none of the registered ones. */
    lemma NotRegistered(o: OptRef<T>)
      requires Obj(o) !in Footprint()
      ensures forall i :: 0 <= i < |opts| ==> Obj(opts[i]) != Obj(o)
    {
      forall i | 0 <= i < |opts|
        ensures Obj(opts[i]) != Obj(o)
      {
        assert Obj(opts[i]) in Footprint();
      }
    }

    /** `process(argc, argv)` with the scanner `scan`: every option is
        cleared and the leftovers emptied; the scanner gets the option
        string and the long table; its results are dispatched; and on a
        normal end the arguments after the options become the leftovers
        (`noOptions()`), in order.  The registry itself is unchanged. */
    method Process(argv: seq<string>, scan: Scanner) returns (r: int)
      requires Valid()
      requires ScanFits(Contents(), argv, scan)
      modifies this, Footprint()
      ensures Contents() == old(Contents()) && Valid()
      ensures var p := Processed(Contents(), argv, scan, old(States()));
        States() == p.0.states && r == p.0.code && notOption == p.1
    {
      ghost var t := Contents();
      ghost var p := Processed(t, argv, scan, States());
      var left;
      r, left := Run(argv, scan);
      ghost var sts := States();
      assert sts == p.0.states && r == p.0.code && left == p.1;
      OutsideFootprint();
      notOption := left;
      assert Contents() == t && States() == sts;
    }

    /** The work of `process` on the options: the option string and the
        long table depend only on the names, so they are built first; then
        every option is cleared, the results are dispatched, and on a
        normal end the arguments after the options are collected. */
    method Run(argv: seq<string>, scan: Scanner) returns (r: int, left: seq<string>)
      requires Valid()
      requires ScanFits(Contents(), argv, scan)
      modifies Footprint()
      ensures Contents() == old(Contents())
      ensures var p := Processed(Contents(), argv, scan, old(States()));
        States() == p.0.states && r == p.0.code && left == p.1
    {
      var t := Contents();
      ghost var before := States();
      OutsideFootprint();
      ValidIsSound();
      var table, sc, rest := Scanned(t, argv, scan);
      r := Dispatched(table, sc.results);
      left := if r == 0 then rest else [];
    }

    /** Every option cleared, then the results dispatched. */
    method Dispatched(table: seq<LongOption>, rs: seq<ScanResult>) returns (r: int)
      requires Sound() && IndicesInRange(rs, |table|)
      modifies Footprint()
      ensures Contents() == old(Contents())
      ensures var out := Dispatch(Contents(), table, rs, ClearAll(opts, old(States())));
        States() == out.states && r == out.code
    {
      ghost var before := States();
      OutsideFootprint();
      ClearOptions();
      ghost var cleared := States();
      assert cleared == ClearAll(opts, before);
      r := RunDispatch(table, rs);
    }

    /** The `for (auto & ptr : getOptionMap()) ptr->clear()` loop. */
    method ClearOptions()
      requires Sound()
      modifies Footprint()
      ensures Contents() == old(Contents())
      ensures States() == ClearAll(opts, old(States()))
    {
      ghost var before := States();
      var i := 0;
      while i < |opts|
        invariant 0 <= i <= |opts|
        invariant forall j :: 0 <= j < |opts| ==> StateOf(opts[j]) == if j < i then ClearOf(opts[j], before[j]) else before[j]
      {
        ClearOption(i);
        i := i + 1;
      }
      assert States() == ClearAll(opts, before);
    }

    /** The virtual `clear` of the option with index `idx`: only its state
        changes. */
    method ClearOption(idx: nat)
      requires Sound() && idx < |opts|
      modifies Obj(opts[idx])
      ensures forall j :: 0 <= j < |opts| ==>
        StateOf(opts[j]) == if j == idx then ClearOf(opts[j], old(StateOf(opts[j]))) else old(StateOf(opts[j]))
    {
      CallClear(opts[idx]);
      forall j | 0 <= j < |opts| && j != idx
        ensures Obj(opts[j]) != Obj(opts[idx])
      {
      }
    }

    /** The `while (1)` loop of `process` over the scanner's results. */
    method RunDispatch(table: seq<LongOption>, rs: seq<ScanResult>) returns (r: int)
      requires Sound() && IndicesInRange(rs, |table|)
      modifies Footprint()
      ensures Contents() == old(Contents())
      ensures var out := Dispatch(Contents(), table, rs, old(States()));
        States() == out.states && r == out.code
    {
      ghost var t := Contents();
      ghost var goal := Dispatch(t, table, rs, States());
      OutsideFootprint();
      var k := 0;
      assert rs[k..] == rs;
      while k < |rs| && rs[k].ret != -1
        invariant 0 <= k <= |rs|
        invariant Contents() == t
        invariant IndicesInRange(rs[k..], |table|)
        invariant Dispatch(t, table, rs[k..], States()) == goal
        decreases |rs| - k
      {
        DispatchAt(t, table, rs, k, States());
        var stop, code := DispatchResult(table, rs[k]);
        if stop {
          return code;
        }
        k := k + 1;
      }
      if k < |rs| {
        assert rs[k..][0] == rs[k];
      }
      r := 0;
    }

    /** The body of that loop, for one result other than -1: whether the
        loop stops there, with which code, and what the result does to the
        options. */
    method DispatchResult(table: seq<LongOption>, e: ScanResult) returns (stop: bool, code: int)
      requires Sound() && e.ret != -1 && (e.ret == 0 ==> 0 <= e.optionIndex < |table|)
      modifies Footprint()
      ensures Contents() == old(Contents())
      ensures StepOf(Contents(), table, e, old(States())) == if stop then Stop(States(), code) else Continue(States())
    {
      if IsShortCode(e.ret) || e.ret == 0 {
        var target := FindTarget(table, e);
        if target.Some? {
          var c := SetOption(target.value, e.optarg.GetOr(""));
          stop, code := c != 0, if c != 0 then -3 else 0;
        } else {
          stop, code := false, 0;
        }
      } else if e.ret == '?' as int {
        stop, code := true, -1;
      } else if e.ret == ':' as int {
        stop, code := true, -2;
      } else {
        stop, code := false, 0;
      }
    }

    /** The lookups `getShortOptionMap().count(c)` and
        `getLongOptionMap().count(longOptionsVector.at(option_index).name)`. */
    method FindTarget(table: seq<LongOption>, e: ScanResult) returns (target: Option<nat>)
      requires InRange(Contents()) && (e.ret == 0 ==> 0 <= e.optionIndex < |table|)
      ensures target == Target(Contents(), table, e)
    {
      if IsShortCode(e.ret) {
        var c := e.ret as char;
        target := if c in shortMap then Some(shortMap[c]) else None;
      } else if e.ret == 0 {
        var name := table[e.optionIndex].name;
        target := if name in longMap then Some(longMap[name]) else None;
      } else {
        target := None;
      }
    }

    /** The virtual `setValue` of the option with index `idx`: only its state
        changes. */
    method SetOption(idx: nat, val: string) returns (code: int)
      requires Sound() && idx < |opts|
      modifies Obj(opts[idx])
      ensures Contents() == old(Contents())
      ensures var (st, c) := SetValueOf(opts[idx], old(States())[idx], val);
        States() == old(States())[idx := st] && code == c
    {
      ghost var before := States();
      code := CallSetValue(opts[idx], val);
      forall j | 0 <= j < |opts| && j != idx
        ensures StateOf(opts[j]) == before[j]
      {
        assert Obj(opts[j]) != Obj(opts[idx]);
      }
    }
  }
}
