/** The option value kinds of `options.hpp`: the descriptor data every option
    carries (`interface`), the text-to-value extraction helper
    (`interface::setValue`), and the three kinds `counter`, `single<T>` and
    `vector<T>` with their `setValue`, `clear` and `isValueRequired`. */
module Options {
  import opened Wrappers

  /** One more than the largest `counter_t` (`unsigned int`) value. */
  const CountModulus := 0x1_0000_0000

  /** `counter_t`: an unsigned 32-bit count. */
  type Count = x: int | 0 <= x < 0x1_0000_0000

  /** `++` on a `counter_t`: wraps to 0 after 2^32 - 1. */
  function Inc(c: Count): (r: Count)
    ensures r == (c + 1) % CountModulus
  {
    if c == CountModulus - 1 then 0 else c + 1
  }

  /** `description_t`: a description in one language; the empty locale tag
      marks the default description. */
  datatype Description = Description(locale: string, desc: string)

  /** The fields of `interface`, fixed once `init` has run. */
  datatype Descriptor = Descriptor(
    shortOption: string,        // candidate short names, the first free one is used
    longOption: string,         // candidate long names, separated by spaces or commas
    defaultValue: string,       // "" when there is no default; lines for a vector
    description: seq<Description>)

  /** `interface::init` (without its final `registerOpt`, which the registry
      models): the localized descriptions, then the default description under
      the empty locale tag. */
  function Init(shortOpt: string, longOpt: string, defaultVal: string, defaultDesc: string,
                localeDesc: seq<Description>): (d: Descriptor)
    ensures d.shortOption == shortOpt && d.longOption == longOpt && d.defaultValue == defaultVal
    ensures |d.description| == |localeDesc| + 1
    ensures d.description[..|localeDesc|] == localeDesc
    ensures d.description[|localeDesc|] == Description("", defaultDesc)
  {
    Descriptor(shortOpt, longOpt, defaultVal, localeDesc + [Description("", defaultDesc)])
  }

  /** Extraction of text into a target of type `T` (`std::istringstream s(val);
      s >> target`): the new target, or `None` when the extraction throws. The
      old target is an argument because some targets merge the text into what
      they hold (the suboption maps do). */
  type Extractor<!T> = (string, T) -> Option<T>

  /** The generic `interface::setValue(val, target)`: 0 and the extracted
      value, or -1 and the target as it was when the extraction throws. */
  function ExtractInto<T>(extract: Extractor<T>, val: string, target: T): (int, T) {
    match extract(val, target)
    case Some(v) => (0, v)
    case None => (-1, target)
  }

  /** The `std::string` overload of `interface::setValue`: the whole text,
      spaces included, replaces the target; it never fails. */
  function AssignText(val: string, target: string): Option<string> {
    Some(val)
  }

  // ---------------------------------------------------------------
  // Lines of a default value, as `std::getline(s, val, '\n')` reads them

  /** The index of the first newline of `s`, or |s| when it has none. */
  function LineEnd(s: string): (i: nat)
    ensures i <= |s| && (i < |s| ==> s[i] == '\n')
    ensures forall j :: 0 <= j < i ==> s[j] != '\n'
    decreases |s|
  {
    if s == [] || s[0] == '\n' then 0 else 1 + LineEnd(s[1..])
  }

  /** The lines a `getline` loop reads from `s`: text up to each newline; a
      final newline ends the last line without starting another, and the
      empty text has no lines. */
  function Lines(s: string): (r: seq<string>)
    ensures forall k :: 0 <= k < |r| ==> '\n' !in r[k]
    decreases |s|
  {
    if s == [] then []
    else
      var i := LineEnd(s);
      [s[..i]] + (if i == |s| then [] else Lines(s[i + 1..]))
  }

  /** The lines joined with newlines between them. */
  function JoinLines(ls: seq<string>): string
    decreases |ls|
  {
    if ls == [] then [] else if |ls| == 1 then ls[0] else ls[0] + "\n" + JoinLines(ls[1..])
  }

  lemma LineEndAt(a: string, b: string)
    requires '\n' !in a
    ensures LineEnd(a + "\n" + b) == |a|
  {
    var s := a + "\n" + b;
    assert s[|a|] == '\n';
    assert forall j :: 0 <= j < |a| ==> s[j] == a[j];
  }

  lemma {:induction false} LineEndWhole(s: string)
    requires '\n' !in s
    ensures LineEnd(s) == |s|
    decreases |s|
  {
    if s != [] {
      assert s[0] in s;
      assert forall j :: 0 <= j < |s[1..]| ==> s[1..][j] == s[j + 1];
      LineEndWhole(s[1..]);
    }
  }

  /** A non-empty text with no newline is one line. */
  lemma LinesOfLine(s: string)
    requires s != [] && '\n' !in s
    ensures Lines(s) == [s]
  {
    LineEndWhole(s);
    assert s[..|s|] == s;
  }

  /** A line and its newline, then more text: that line, then the lines of
      the rest. */
  lemma LinesCons(line: string, t: string)
    requires '\n' !in line
    ensures Lines(line + "\n" + t) == [line] + Lines(t)
  {
    var s := line + "\n" + t;
    LineEndAt(line, t);
    assert s[..|line|] == line;
    assert s[|line| + 1..] == t;
  }

  lemma JoinCons(line: string, rest: seq<string>)
    requires rest != []
    ensures JoinLines([line] + rest) == line + "\n" + JoinLines(rest)
  {
    assert ([line] + rest)[1..] == rest;
  }

  /** Joining lines that hold no newline, the last of them non-empty, and
      reading them back gives the same lines. */
  lemma {:induction false} LinesOfJoin(ls: seq<string>)
    requires forall k :: 0 <= k < |ls| ==> '\n' !in ls[k]
    requires ls == [] || ls[|ls| - 1] != []
    ensures Lines(JoinLines(ls)) == ls
    decreases |ls|
  {
    if |ls| == 1 {
      assert ls == [ls[0]];
      LinesOfLine(ls[0]);
    } else if |ls| > 1 {
      var rest := ls[1..];
      assert forall k :: 0 <= k < |rest| ==> rest[k] == ls[k + 1];
      LinesOfJoin(rest);
      LinesCons(ls[0], JoinLines(rest));
      assert ls == [ls[0]] + rest;
    }
  }

  /** What follows the last line: a newline when `s` ends with one. */
  function FinalNewline(s: string): string {
    if s != [] && s[|s| - 1] == '\n' then "\n" else ""
  }

  lemma FinalNewlineAfter(line: string, t: string)
    ensures FinalNewline(line + "\n" + t) == if t == [] then "\n" else FinalNewline(t)
  {
    var s := line + "\n" + t;
    assert s[|s| - 1] == if t == [] then '\n' else t[|t| - 1];
  }

  lemma Reassemble(s: string, i: nat)
    requires i < |s|
    ensures s == s[..i] + [s[i]] + s[i + 1..]
  {
    assert s[i..] == [s[i]] + s[i + 1..];
    assert s == s[..i] + s[i..];
  }

  lemma NoNewlineBefore(s: string)
    ensures '\n' !in s[..LineEnd(s)]
  {
    var i := LineEnd(s);
    assert forall j :: 0 <= j < i ==> s[..i][j] == s[j];
  }

  /** The text up to the first newline, the newline, and the rest. */
  lemma SplitAtLineEnd(s: string)
    requires LineEnd(s) < |s|
    ensures s == s[..LineEnd(s)] + "\n" + s[LineEnd(s) + 1..]
    ensures '\n' !in s[..LineEnd(s)]
  {
    var i := LineEnd(s);
    Reassemble(s, i);
    NoNewlineBefore(s);
  }

  lemma WholeLine(s: string)
    requires s != [] && LineEnd(s) == |s|
    ensures JoinLines(Lines(s)) + FinalNewline(s) == s
  {
    assert s[..|s|] == s;
    assert s[|s| - 1] != '\n';
  }

  lemma JoinOfLinesCons(line: string, t: string)
    requires '\n' !in line
    requires JoinLines(Lines(t)) + FinalNewline(t) == t
    ensures JoinLines(Lines(line + "\n" + t)) + FinalNewline(line + "\n" + t) == line + "\n" + t
  {
    LinesCons(line, t);
    FinalNewlineAfter(line, t);
    if t == [] {
      assert Lines(line + "\n" + t) == [line];
    } else {
      JoinCons(line, Lines(t));
      assert (line + "\n" + JoinLines(Lines(t))) + FinalNewline(t)
          == line + "\n" + (JoinLines(Lines(t)) + FinalNewline(t));
    }
  }

  /** Reading the lines of `s` and joining them gives `s` back, up to a final
      newline. */
  lemma {:induction false} JoinOfLines(s: string)
    ensures JoinLines(Lines(s)) + FinalNewline(s) == s
    decreases |s|
  {
    if s != [] {
      var i := LineEnd(s);
      if i == |s| {
        WholeLine(s);
      } else {
        SplitAtLineEnd(s);
        JoinOfLines(s[i + 1..]);
        JoinOfLinesCons(s[..i], s[i + 1..]);
      }
    }
  }

  // ---------------------------------------------------------------
  // The state of each kind, and what setValue and clear do to it

  /** `counter`: the count and `dv`, "the count still comes from the default". */
  datatype CounterState = CounterState(dv: bool, count: Count)

  /** `single<T>`: the number of occurrences and the last value given. */
  datatype SingleState<T> = SingleState(counter: Count, value: T)

  /** `vector<T>`: `dv`, the number of occurrences and the values given. */
  datatype VectorState<T> = VectorState(dv: bool, counter: Count, values: seq<T>)

  /** `counter::setValue`: the text is ignored; the first call after a clear
      restarts the count from 0, every call adds one; it always returns 0. */
  function CounterSetValue(s: CounterState): CounterState {
    CounterState(false, if s.dv then 1 else Inc(s.count))
  }

  /** `counter::clear`: the count becomes the extracted default, or 0 with no
      default; `dv` is re-armed. A failed extraction leaves the count as it was. */
  function CounterClear(extract: Extractor<Count>, default: string, s: CounterState): CounterState {
    CounterState(true, if default == [] then 0 else ExtractInto(extract, default, s.count).1)
  }

  /** `single<T>::setValue`: one more occurrence on every call; non-empty text
      is extracted into the value (the last write wins); a failed extraction
      returns -1. */
  function SingleSetValue<T>(extract: Extractor<T>, s: SingleState<T>, val: string): (SingleState<T>, int) {
    var counter := Inc(s.counter);
    if val == [] then (SingleState(counter, s.value), 0)
    else
      var (code, v) := ExtractInto(extract, val, s.value);
      (SingleState(counter, v), code)
  }

  /** `single<T>::clear`: no occurrences; the value reset to zero / empty,
      then the default, if any, extracted into it. */
  function SingleClear<T>(extract: Extractor<T>, zero: T, default: string): SingleState<T> {
    SingleState(0, if default == [] then zero else ExtractInto(extract, default, zero).1)
  }

  /** `vector<T>::setValue`: one more occurrence; the first call after a clear
      drops the default values; non-empty text extracted into a fresh element
      is appended; a failed extraction appends nothing and returns -1. */
  function VectorSetValue<T>(extract: Extractor<T>, zero: T, s: VectorState<T>, val: string): (VectorState<T>, int) {
    var counter := Inc(s.counter);
    var kept := if s.dv then [] else s.values;
    if val == [] then (VectorState(false, counter, kept), 0)
    else
      match extract(val, zero)
      case Some(v) => (VectorState(false, counter, kept + [v]), 0)
      case None => (VectorState(false, counter, kept), -1)
  }

  /** The values a `vector<T>::clear` reads: each line extracted into a fresh
      element, kept even when the extraction fails. */
  function ExtractEach<T>(extract: Extractor<T>, zero: T, lines: seq<string>): (r: seq<T>)
    ensures |r| == |lines|
    decreases |lines|
  {
    if lines == [] then []
    else ExtractEach(extract, zero, lines[..|lines| - 1]) + [ExtractInto(extract, lines[|lines| - 1], zero).1]
  }

  /** `vector<T>::clear`: no occurrences, one value per line of the default. */
  function VectorClear<T>(extract: Extractor<T>, zero: T, default: string): VectorState<T> {
    VectorState(true, 0, ExtractEach(extract, zero, Lines(default)))
  }

  // ---------------------------------------------------------------
  // The three kinds

  /** `counter`: counts the occurrences of a flag that takes no value. */
  class Counter {
    const desc: Descriptor
    const extract: Extractor<Count>
    var dv: bool
    var value: Count

    ghost function State(): CounterState
      reads this
    {
      CounterState(dv, value)
    }

    /** Not cleared on construction: until the first `process` the count is 0. */
    constructor (desc: Descriptor, extract: Extractor<Count>)
      ensures this.desc == desc && State() == CounterState(true, 0)
    {
      this.desc := desc;
      this.extract := extract;
      dv := true;
      value := 0;
    }

    method SetValue(val: string) returns (r: int)
      modifies this
      ensures r == 0 && State() == CounterSetValue(old(State()))
    {
      if dv {
        value := 0;
        dv := false;
      }
      value := Inc(value);
      r := 0;
    }

    method Clear()
      modifies this
      ensures State() == CounterClear(extract, desc.defaultValue, old(State()))
    {
      if desc.defaultValue != [] {
        var (_, v) := ExtractInto(extract, desc.defaultValue, value);
        value := v;
      } else {
        value := 0;
      }
      dv := true;
    }

    /** A counter never takes a value. */
    predicate IsValueRequired() {
      false
    }
  }

  /** `single<T>`: keeps the last value given. */
  class Single<T> {
    const desc: Descriptor
    const extract: Extractor<T>
    const zero: T
    const valueRequired: bool
    var counter: Count
    var value: T

    ghost function State(): SingleState<T>
      reads this
    {
      SingleState(counter, value)
    }

    /** `required` defaults to true in the source. */
    constructor (desc: Descriptor, extract: Extractor<T>, zero: T, required: bool)
      ensures this.desc == desc && this.zero == zero && valueRequired == required
      ensures State() == SingleState(0, zero)
    {
      this.desc := desc;
      this.extract := extract;
      this.zero := zero;
      valueRequired := required;
      counter := 0;
      value := zero;
    }

    method SetValue(val: string) returns (r: int)
      modifies this
      ensures (State(), r) == SingleSetValue(extract, old(State()), val)
    {
      counter := Inc(counter);
      r := 0;
      if val != [] {
        var (code, v) := ExtractInto(extract, val, value);
        value := v;
        if code != 0 {
          r := -1;
        }
      }
    }

    method Clear()
      modifies this
      ensures State() == SingleClear(extract, zero, desc.defaultValue)
    {
      counter := 0;
      value := zero;
      if desc.defaultValue != [] {
        var (_, v) := ExtractInto(extract, desc.defaultValue, value);
        value := v;
      }
    }

    predicate IsValueRequired() {
      valueRequired
    }
  }

  /** `vector<T>`: collects the values of every occurrence. */
  class Vector<T> {
    const desc: Descriptor
    const extract: Extractor<T>
    const zero: T
    const valueRequired: bool
    var dv: bool
    var counter: Count
    var value: seq<T>

    ghost function State(): VectorState<T>
      reads this
    {
      VectorState(dv, counter, value)
    }

    /** `required` defaults to true in the source. */
    constructor (desc: Descriptor, extract: Extractor<T>, zero: T, required: bool)
      ensures this.desc == desc && this.zero == zero && valueRequired == required
      ensures State() == VectorState(true, 0, [])
    {
      this.desc := desc;
      this.extract := extract;
      this.zero := zero;
      valueRequired := required;
      dv := true;
      counter := 0;
      value := [];
    }

    method SetValue(val: string) returns (r: int)
      modifies this
      ensures (State(), r) == VectorSetValue(extract, zero, old(State()), val)
    {
      counter := Inc(counter);
      if dv {
        value := [];
        dv := false;
      }
      r := 0;
      if val != [] {
        var (code, v) := ExtractInto(extract, val, zero);
        if code != 0 {
          r := -1;
        } else {
          value := value + [v];
        }
      }
    }

    /** Reads the default line by line, as the source's `getline` loop does. */
    method Clear()
      modifies this
      ensures State() == VectorClear(extract, zero, desc.defaultValue)
    {
      var lines := Lines(desc.defaultValue);
      counter := 0;
      value := [];
      var i := 0;
      while i < |lines|
        invariant 0 <= i <= |lines|
        invariant counter == 0 && value == ExtractEach(extract, zero, lines[..i])
      {
        var (_, v) := ExtractInto(extract, lines[i], zero);
        assert lines[..i + 1][..i] == lines[..i];
        value := value + [v];
        i := i + 1;
      }
      assert lines[..i] == lines;
      dv := true;
    }

    predicate IsValueRequired() {
      valueRequired
    }
  }

  // ---------------------------------------------------------------
  // What repeated calls do

  /** The counter after `n` calls of `setValue`. */
  function CounterAfter(s: CounterState, n: nat): CounterState
    decreases n
  {
    if n == 0 then s else CounterSetValue(CounterAfter(s, n - 1))
  }

  /** The first match after a clear discards the default: after a clear and
      n >= 1 matches the count is n (modulo 2^32), whatever the default was. */
  lemma {:induction false} CounterCountsFromClear(extract: Extractor<Count>, default: string, s: CounterState, n: nat)
    requires n >= 1
    ensures CounterAfter(CounterClear(extract, default, s), n) == CounterState(false, n % CountModulus)
    decreases n
  {
    if n > 1 {
      CounterCountsFromClear(extract, default, s, n - 1);
    }
  }

  /** Clearing twice is clearing once, for an extraction that does not read
      its target (as the extraction of an `unsigned int` does not). */
  lemma CounterClearIdempotent(extract: Extractor<Count>, default: string, s: CounterState)
    requires forall a: Count, b: Count :: extract(default, a) == extract(default, b)
    ensures CounterClear(extract, default, CounterClear(extract, default, s)) == CounterClear(extract, default, s)
  {
    var once := CounterClear(extract, default, s);
    assert extract(default, once.count) == extract(default, s.count);
  }

  /** The single value after `setValue` with each text in turn. */
  function SingleAfter<T>(extract: Extractor<T>, s: SingleState<T>, ts: seq<string>): SingleState<T>
    decreases |ts|
  {
    if ts == [] then s else SingleSetValue(extract, SingleAfter(extract, s, ts[..|ts| - 1]), ts[|ts| - 1]).0
  }

  /** The last non-empty text of `ts`, or `otherwise` when there is none. */
  function LastNonEmpty(ts: seq<string>, otherwise: string): string
    decreases |ts|
  {
    if ts == [] then otherwise
    else if ts[|ts| - 1] != [] then ts[|ts| - 1]
    else LastNonEmpty(ts[..|ts| - 1], otherwise)
  }

  /** A string `single`: every call counts, and the value is the whole text
      of the last non-empty one (the last write wins; empty text keeps it). */
  lemma {:induction false} SingleTextLastWriteWins(s: SingleState<string>, ts: seq<string>)
    ensures SingleAfter(AssignText, s, ts) == SingleState((s.counter + |ts|) % CountModulus, LastNonEmpty(ts, s.value))
    decreases |ts|
  {
    if ts != [] {
      SingleTextLastWriteWins(s, ts[..|ts| - 1]);
    }
  }

  /** The vector after `setValue` with each text in turn. */
  function VectorAfter<T>(extract: Extractor<T>, zero: T, s: VectorState<T>, ts: seq<string>): VectorState<T>
    decreases |ts|
  {
    if ts == [] then s else VectorSetValue(extract, zero, VectorAfter(extract, zero, s, ts[..|ts| - 1]), ts[|ts| - 1]).0
  }

  /** One extracted element per non-empty text whose extraction succeeds,
      in order; a text that is empty or fails to extract adds nothing. */
  function Collected<T>(extract: Extractor<T>, zero: T, ts: seq<string>): seq<T>
    decreases |ts|
  {
    if ts == [] then []
    else
      var last := ts[|ts| - 1];
      Collected(extract, zero, ts[..|ts| - 1])
        + (if last == [] then [] else match extract(last, zero) case Some(v) => [v] case None => [])
  }

  /** The count after one more occurrence, when it was `a` modulo 2^32. */
  lemma IncMod(a: nat)
    ensures Inc(a % CountModulus) == (a + 1) % CountModulus
  {
  }

  lemma {:induction false} VectorAfterCounter<T>(extract: Extractor<T>, zero: T, s: VectorState<T>, ts: seq<string>)
    ensures VectorAfter(extract, zero, s, ts).counter == (s.counter + |ts|) % CountModulus
    decreases |ts|
  {
    if ts != [] {
      VectorAfterCounter(extract, zero, s, ts[..|ts| - 1]);
      IncMod(s.counter + |ts| - 1);
    }
  }

  lemma VectorAfterDv<T>(extract: Extractor<T>, zero: T, s: VectorState<T>, ts: seq<string>)
    ensures VectorAfter(extract, zero, s, ts).dv == (s.dv && ts == [])
  {
  }

  lemma {:induction false} VectorAfterValues<T>(extract: Extractor<T>, zero: T, s: VectorState<T>, ts: seq<string>)
    ensures VectorAfter(extract, zero, s, ts).values
      == (if s.dv && ts != [] then [] else s.values) + Collected(extract, zero, ts)
    decreases |ts|
  {
    if ts != [] {
      var init, last := ts[..|ts| - 1], ts[|ts| - 1];
      VectorAfterValues(extract, zero, s, init);
      VectorAfterDv(extract, zero, s, init);
      var kept := if s.dv then [] else s.values;
      var added := if last == [] then [] else match extract(last, zero) case Some(v) => [v] case None => [];
      assert (kept + Collected(extract, zero, init)) + added == kept + (Collected(extract, zero, init) + added);
    }
  }

  /** A vector counts every call; the first call after a clear drops the
      default values, failing calls included, and each non-empty text that
      extracts appends exactly one element. */
  lemma VectorCollects<T>(extract: Extractor<T>, zero: T, s: VectorState<T>, ts: seq<string>)
    ensures VectorAfter(extract, zero, s, ts) == VectorState(
      s.dv && ts == [],
      (s.counter + |ts|) % CountModulus,
      (if s.dv && ts != [] then [] else s.values) + Collected(extract, zero, ts))
  {
    VectorAfterCounter(extract, zero, s, ts);
    VectorAfterDv(extract, zero, s, ts);
    VectorAfterValues(extract, zero, s, ts);
  }

  /** After `vector::clear` and at least one match, the values are exactly the
      ones the matches' non-empty, successfully extracted texts supplied, in
      order: none of the default survives. */
  lemma VectorFirstMatchDiscardsDefault<T>(extract: Extractor<T>, zero: T, default: string, ts: seq<string>)
    requires ts != []
    ensures VectorAfter(extract, zero, VectorClear(extract, zero, default), ts).values == Collected(extract, zero, ts)
  {
    VectorCollects(extract, zero, VectorClear(extract, zero, default), ts);
  }

  // ---------------------------------------------------------------
  // The `interface *` of the registry: a closed union of the three kinds

  /** A registered option: which kind it is, and the object. */
  datatype OptRef<T> = CounterRef(counterObj: Counter) | SingleRef(singleObj: Single<T>) | VectorRef(vectorObj: Vector<T>)

  /** The state of an option of any kind. */
  datatype OptState<T> = OfCounter(cs: CounterState) | OfSingle(ss: SingleState<T>) | OfVector(vs: VectorState<T>)

  function Obj<T>(o: OptRef<T>): object {
    match o
    case CounterRef(c) => c
    case SingleRef(s) => s
    case VectorRef(v) => v
  }

  /** The descriptor fields of the option (`getShortOption`, `getLongOption`,
      `getDefaultValue`, `getDescription`). */
  function Desc<T>(o: OptRef<T>): Descriptor {
    match o
    case CounterRef(c) => c.desc
    case SingleRef(s) => s.desc
    case VectorRef(v) => v.desc
  }

  /** `getType()`: the static type string of the kind. */
  function TypeOf<T>(o: OptRef<T>): (r: string)
    ensures r == "counter" <==> o.CounterRef?
    ensures r == "vector" <==> o.VectorRef?
  {
    match o
    case CounterRef(_) => "counter"
    case SingleRef(_) => "single"
    case VectorRef(_) => "vector"
  }

  /** `isValueRequired()`: never for a counter, the constructor flag otherwise. */
  predicate ValueRequired<T>(o: OptRef<T>) {
    match o
    case CounterRef(c) => c.IsValueRequired()
    case SingleRef(s) => s.IsValueRequired()
    case VectorRef(v) => v.IsValueRequired()
  }

  /** The state is of the option's kind. */
  predicate Fits<T>(o: OptRef<T>, st: OptState<T>) {
    (o.CounterRef? <==> st.OfCounter?) && (o.SingleRef? <==> st.OfSingle?) && (o.VectorRef? <==> st.OfVector?)
  }

  ghost function StateOf<T>(o: OptRef<T>): (st: OptState<T>)
    reads Obj(o)
    ensures Fits(o, st)
  {
    match o
    case CounterRef(c) => OfCounter(c.State())
    case SingleRef(s) => OfSingle(s.State())
    case VectorRef(v) => OfVector(v.State())
  }

  /** The virtual `setValue(val)`: the new state and the returned code. */
  function SetValueOf<T>(o: OptRef<T>, st: OptState<T>, val: string): (r: (OptState<T>, int))
    requires Fits(o, st)
    ensures Fits(o, r.0)
    ensures o.CounterRef? ==> r.1 == 0
    ensures r.1 == 0 || r.1 == -1
  {
    match o
    case CounterRef(c) => (OfCounter(CounterSetValue(st.cs)), 0)
    case SingleRef(s) =>
      var (ns, code) := SingleSetValue(s.extract, st.ss, val);
      (OfSingle(ns), code)
    case VectorRef(v) =>
      var (ns, code) := VectorSetValue(v.extract, v.zero, st.vs, val);
      (OfVector(ns), code)
  }

  /** The virtual `clear()`. */
  function ClearOf<T>(o: OptRef<T>, st: OptState<T>): (r: OptState<T>)
    requires Fits(o, st)
    ensures Fits(o, r)
  {
    match o
    case CounterRef(c) => OfCounter(CounterClear(c.extract, c.desc.defaultValue, st.cs))
    case SingleRef(s) => OfSingle(SingleClear(s.extract, s.zero, s.desc.defaultValue))
    case VectorRef(v) => OfVector(VectorClear(v.extract, v.zero, v.desc.defaultValue))
  }

  /** Clearing a single or a vector gives a state that depends on nothing but
      the option itself (its default), so clearing twice is clearing once. */
  lemma ClearForgetsState<T>(o: OptRef<T>, st1: OptState<T>, st2: OptState<T>)
    requires !o.CounterRef? && Fits(o, st1) && Fits(o, st2)
    ensures ClearOf(o, st1) == ClearOf(o, st2)
  {
  }

  /** The option's state after `setValue` with each text in turn. */
  function SetAll<T>(o: OptRef<T>, st: OptState<T>, ts: seq<string>): (r: OptState<T>)
    requires Fits(o, st)
    ensures Fits(o, r)
    decreases |ts|
  {
    if ts == [] then st else SetValueOf(o, SetAll(o, st, ts[..|ts| - 1]), ts[|ts| - 1]).0
  }

  /** Setting one text and then the others is setting them all. */
  lemma {:induction false} SetAllCons<T>(o: OptRef<T>, st: OptState<T>, t: string, ts: seq<string>)
    requires Fits(o, st)
    ensures SetAll(o, SetValueOf(o, st, t).0, ts) == SetAll(o, st, [t] + ts)
    decreases |ts|
  {
    if ts != [] {
      SetAllCons(o, st, t, ts[..|ts| - 1]);
      ConsParts(t, ts);
    } else {
      assert ([t] + ts)[..0] == [];
    }
  }

  lemma ConsParts(t: string, ts: seq<string>)
    requires ts != []
    ensures ([t] + ts)[..|ts|] == [t] + ts[..|ts| - 1] && ([t] + ts)[|ts|] == ts[|ts| - 1]
  {
  }

  /** For each kind, `SetAll` is that kind's own repeated `setValue`. */
  lemma {:induction false} SetAllOfKind<T>(o: OptRef<T>, st: OptState<T>, ts: seq<string>)
    requires Fits(o, st)
    ensures o.CounterRef? ==> SetAll(o, st, ts) == OfCounter(CounterAfter(st.cs, |ts|))
    ensures o.SingleRef? ==> SetAll(o, st, ts) == OfSingle(SingleAfter(o.singleObj.extract, st.ss, ts))
    ensures o.VectorRef? ==> SetAll(o, st, ts) == OfVector(VectorAfter(o.vectorObj.extract, o.vectorObj.zero, st.vs, ts))
    decreases |ts|
  {
    if ts != [] {
      SetAllOfKind(o, st, ts[..|ts| - 1]);
    }
  }

  method CallSetValue<T>(o: OptRef<T>, val: string) returns (r: int)
    modifies Obj(o)
    ensures (StateOf(o), r) == SetValueOf(o, old(StateOf(o)), val)
  {
    match o
    case CounterRef(c) => r := c.SetValue(val);
    case SingleRef(s) => r := s.SetValue(val);
    case VectorRef(v) => r := v.SetValue(val);
  }

  method CallClear<T>(o: OptRef<T>)
    modifies Obj(o)
    ensures StateOf(o) == ClearOf(o, old(StateOf(o)))
  {
    match o
    case CounterRef(c) => c.Clear();
    case SingleRef(s) => s.Clear();
    case VectorRef(v) => v.Clear();
  }
}
