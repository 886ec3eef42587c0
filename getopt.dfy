/** The interface to the option scanner `getopt_long` that `process` relies
    on: the option string and long-option table it is given, and what it
    reports back.  The scanner itself is not modelled; `process` receives it
    as a function from the argument vector, option string and table to the
    sequence of its results and the arguments left after the options. */
module Getopt {
  import opened Wrappers

  /** `no_argument`, `required_argument`, `optional_argument`. */
  datatype ArgKind = NoArgument | RequiredArgument | OptionalArgument

  /** An entry of the long-option table (`struct option` with `flag == NULL`
      and `val == 0`). */
  datatype LongOption = LongOption(name: string, hasArg: ArgKind)

  /** One call of `getopt_long`: its return value, the `option_index` it
      stores for a long option, and `optarg` (`None` for a null pointer). */
  datatype ScanResult = ScanResult(ret: int, optionIndex: int, optarg: Option<string>)

  /** A whole scan: the results up to and including the final -1, and the
      arguments from `optind` on once it has returned -1. */
  datatype Scan = Scan(results: seq<ScanResult>, rest: seq<string>)

  /** The scanner: argument vector, option string and long-option table in,
      scan out. */
  type Scanner = (seq<string>, string, seq<LongOption>) -> Scan

  /** Every long-option match names an entry of the table (`option_index` is
      an index into the table the scanner was given). */
  predicate IndicesInRange(rs: seq<ScanResult>, tableSize: nat) {
    forall i :: 0 <= i < |rs| && rs[i].ret == 0 ==> 0 <= rs[i].optionIndex < tableSize
  }

  /** The letters that follow an option character in an option string: none,
      `:` for a required argument, `::` for an optional one (the GNU
      extension of the POSIX `getopt` syntax). */
  function Suffix(k: ArgKind): (r: string)
    ensures k == NoArgument <==> r == ""
    ensures forall j :: 0 <= j < |r| ==> r[j] == ':'
  {
    match k
    case NoArgument => ""
    case RequiredArgument => ":"
    case OptionalArgument => "::"
  }

  /** The body of an option string: each option character followed by its
      suffix. */
  function EncodeShort(es: seq<(char, ArgKind)>): string
    decreases |es|
  {
    if es == [] then "" else [es[0].0] + Suffix(es[0].1) + EncodeShort(es[1..])
  }

  /** How `getopt` reads an option string body: an option character,
      optionally followed by `:` or `::`. */
  function DecodeShort(s: string): seq<(char, ArgKind)>
    decreases |s|
  {
    if s == [] then []
    else if |s| >= 3 && s[1] == ':' && s[2] == ':' then [(s[0], OptionalArgument)] + DecodeShort(s[3..])
    else if |s| >= 2 && s[1] == ':' then [(s[0], RequiredArgument)] + DecodeShort(s[2..])
    else [(s[0], NoArgument)] + DecodeShort(s[1..])
  }

  /** The option string `getopt` would read back is the one written, as long
      as no option character is itself a colon. */
  lemma {:induction false} DecodeEncodeShort(es: seq<(char, ArgKind)>)
    requires forall i :: 0 <= i < |es| ==> es[i].0 != ':'
    ensures DecodeShort(EncodeShort(es)) == es
    decreases |es|
  {
    if es != [] {
      var rest := EncodeShort(es[1..]);
      DecodeEncodeShort(es[1..]);
      var s := [es[0].0] + Suffix(es[0].1) + rest;
      match es[0].1
      case NoArgument =>
        assert s == [es[0].0] + rest;
        assert rest == [] || rest[0] != ':' by {
          if rest != [] {
            assert rest[0] == es[1].0;
          }
        }
        assert s[1..] == rest;
      case RequiredArgument =>
        assert s == [es[0].0, ':'] + rest;
        assert rest == [] || rest[0] != ':' by {
          if rest != [] {
            assert rest[0] == es[1].0;
          }
        }
        assert s[2..] == rest;
      case OptionalArgument =>
        assert s == [es[0].0, ':', ':'] + rest;
        assert s[3..] == rest;
    }
  }

  lemma {:induction false} EncodeShortAppend(a: seq<(char, ArgKind)>, b: seq<(char, ArgKind)>)
    ensures EncodeShort(a + b) == EncodeShort(a) + EncodeShort(b)
    decreases |a|
  {
    if a != [] {
      assert (a + b)[0] == a[0] && (a + b)[1..] == a[1..] + b;
      EncodeShortAppend(a[1..], b);
      var h := [a[0].0] + Suffix(a[0].1);
      assert EncodeShort(a + b) == h + (EncodeShort(a[1..]) + EncodeShort(b));
      assert h + (EncodeShort(a[1..]) + EncodeShort(b)) == (h + EncodeShort(a[1..])) + EncodeShort(b);
    } else {
      assert a + b == b;
    }
  }

  /** Appending one entry appends its character and suffix. */
  lemma EncodeShortSnoc(a: seq<(char, ArgKind)>, e: (char, ArgKind))
    ensures EncodeShort(a + [e]) == EncodeShort(a) + [e.0] + Suffix(e.1)
  {
    EncodeShortAppend(a, [e]);
    assert EncodeShort([e]) == [e.0] + Suffix(e.1) + EncodeShort([]);
  }
}
