/** Sub-options: a comma-separated list of `key` or `key=value` elements read
    into a map, keeping only the keys of a whitelist.  The scanner is the C
    library's `getsubopt`, modelled here by its documented behaviour. */
module Suboptions {
  import opened Wrappers
  import opened Tokenizer
  import Options

  /** The map a sub-option value is read into (`suboptions_t`). */
  type Entries = map<string, string>

  /** The prefix of `s` before the first `c` (all of `s` when there is none). */
  function UpTo(s: string, c: char): (r: string)
    ensures |r| <= |s| && r == s[..|r|]
    ensures c !in r
    ensures |r| < |s| ==> s[|r|] == c
    decreases |s|
  {
    if s == [] || s[0] == c then [] else [s[0]] + UpTo(s[1..], c)
  }

  /** What a C routine sees of a `std::string` buffer: the text before the
      first NUL. */
  function CString(s: string): string {
    UpTo(s, '\0')
  }

  /** The first index of `key` in `tokens`, or -1 when it is not there. */
  function Find(tokens: seq<string>, key: string): (r: int)
    ensures -1 <= r < |tokens|
    ensures r == -1 <==> key !in tokens
    ensures r >= 0 ==> tokens[r] == key && forall j :: 0 <= j < r ==> tokens[j] != key
    decreases |tokens|
  {
    if tokens == [] then -1
    else if tokens[0] == key then 0
    else
      var k := Find(tokens[1..], key);
      if k < 0 then -1 else k + 1
  }

  /** One step of `getsubopt` on the remaining text `s`.  The element is the
      text up to the first `,`; its key the element up to the first `=`.
      The result is the index of the key among `tokens` (-1 when it is not a
      token), the value (what follows `=` for a known key, nothing for a bare
      known key, the whole element for an unknown one) and the text after the
      element's comma. */
  function GetSubopt(s: string, tokens: seq<string>): (r: (int, Option<string>, string))
    ensures -1 <= r.0 < |tokens|
    ensures s == [] ==> r == (-1, None, s)
    ensures s != [] ==> |r.2| < |s|
  {
    if s == [] then (-1, None, s)
    else
      var element := UpTo(s, ',');
      var key := UpTo(element, '=');
      var rest := if |element| < |s| then s[|element| + 1..] else [];
      var k := Find(tokens, key);
      if k < 0 then (-1, Some(element), rest)
      else (k, if |key| < |element| then Some(element[|key| + 1..]) else None, rest)
  }

  /** The `while (*subopts != '\0')` loop of `subprocess`: each element whose
      key is a whitelisted token sets that entry to its value, or to the empty
      string for a bare key; other elements are skipped. */
  function SubprocessSpec(s: string, tokens: seq<string>, out: Entries): Entries
    decreases |s|
  {
    if s == [] then out
    else
      var (k, value, rest) := GetSubopt(s, tokens);
      SubprocessSpec(rest, tokens, if 0 <= k then out[tokens[k] := value.GetOr("")] else out)
  }

  /** `subprocess(input, tokens, output)`: the whitelist is the tokenized
      `tokens`; the code is always 0 (the error code is never produced). */
  method Subprocess(input: string, tokens: string, output: Entries) returns (r: int, result: Entries)
    ensures r == 0
    ensures result == SubprocessSpec(CString(input), Tokenizer.Tokens(tokens), output)
  {
    var tk := Tokenize(tokens, []);
    assert tk == Tokenizer.Tokens(tokens);
    var subopts := CString(input);
    result := output;
    while subopts != []
      invariant SubprocessSpec(subopts, tk, result) == SubprocessSpec(CString(input), tk, output)
      decreases |subopts|
    {
      var (k, value, rest) := GetSubopt(subopts, tk);
      if k < |tk| && 0 <= k {
        result := result[tk[k] := value.GetOr("")];
      }
      subopts := rest;
    }
    r := 0;
  }

  /** The key of the element at the head of `s`. */
  function HeadKey(s: string): string {
    UpTo(UpTo(s, ','), '=')
  }

  /** The value the last element of `s` with key `key` gives it: what follows
      `=`, or the empty string for a bare key; nothing when no element has
      that key. */
  function Latest(s: string, key: string): Option<string>
    decreases |s|
  {
    if s == [] then None
    else
      var (_, value, rest) := GetSubopt(s, [key]);
      var later := Latest(rest, key);
      if later.Some? then later
      else if HeadKey(s) == key then Some(value.GetOr(""))
      else None
  }

  /** What `subprocess` leaves under each key: a whitelisted key that occurs
      holds the value of its last occurrence (later duplicates overwrite
      earlier ones); every other key, present or absent, is as before; so
      nothing is ever removed and no key outside the whitelist is added. */
  lemma {:induction false} SubprocessLookup(s: string, tokens: seq<string>, out: Entries, key: string)
    ensures key in tokens && Latest(s, key).Some? ==>
      key in SubprocessSpec(s, tokens, out) && SubprocessSpec(s, tokens, out)[key] == Latest(s, key).value
    ensures !(key in tokens && Latest(s, key).Some?) ==>
      (key in SubprocessSpec(s, tokens, out) <==> key in out) &&
      (key in out ==> SubprocessSpec(s, tokens, out)[key] == out[key])
    decreases |s|
  {
    if s != [] {
      var (k, value, rest) := GetSubopt(s, tokens);
      var out' := if 0 <= k then out[tokens[k] := value.GetOr("")] else out;
      SubprocessLookup(rest, tokens, out', key);
      var (k1, value1, rest1) := GetSubopt(s, [key]);
      assert rest1 == rest;
      if 0 <= k && tokens[k] == key {
        assert HeadKey(s) == key && k1 == 0 && value1 == value;
      } else if key in tokens {
        assert HeadKey(s) != key;
      }
    }
  }

  /** Every key `subprocess` leaves is one that was there or a whitelisted
      token. */
  lemma SubprocessKeys(s: string, tokens: seq<string>, out: Entries)
    ensures forall key :: key in SubprocessSpec(s, tokens, out) ==> key in out || key in tokens
  {
    forall key | key in SubprocessSpec(s, tokens, out)
      ensures key in out || key in tokens
    {
      SubprocessLookup(s, tokens, out, key);
    }
  }

  /** Whitespace as the C locale's `isspace` defines it. */
  predicate IsSpace(c: char) {
    c == ' ' || c == '\t' || c == '\n' || c == '\U{B}' || c == '\U{C}' || c == '\r'
  }

  /** `input >> tmp` into a `std::string`: leading whitespace skipped, then the
      characters up to the next whitespace (empty when there are none). */
  function FirstWord(s: string): (r: string)
    ensures forall i :: 0 <= i < |r| ==> !IsSpace(r[i])
    decreases |s|
  {
    if s == [] then []
    else if IsSpace(s[0]) then FirstWord(s[1..])
    else [s[0]] + Word(s[1..])
  }

  function Word(s: string): (r: string)
    ensures |r| <= |s| && r == s[..|r|]
    ensures forall i :: 0 <= i < |r| ==> !IsSpace(r[i])
    decreases |s|
  {
    if s == [] || IsSpace(s[0]) then [] else [s[0]] + Word(s[1..])
  }

  /** The extraction `suboptions<Tokens>` supplies to the option kinds: the
      first word of the text is merged into the entries already held, with
      `tokens` (the class's template parameter, `getTokens()`) as whitelist.
      It never fails, because `subprocess` always returns 0. */
  function Extract(tokens: string): Options.Extractor<Entries> {
    (text: string, target: Entries) => Some(SubprocessSpec(CString(FirstWord(text)), Tokenizer.Tokens(tokens), target))
  }

  /** `operator>>(input, so)`: reads one word and merges it into `so`; `None`
      stands for the `invalid_argument` the operator would throw on a
      non-zero code. */
  method ReadSuboptions(input: string, tokens: string, so: Entries) returns (r: Option<Entries>)
    ensures r == Extract(tokens)(input, so)
    ensures r.Some?
  {
    var tmp := FirstWord(input);
    var code, merged := Subprocess(tmp, tokens, so);
    if code != 0 {
      r := None;
    } else {
      r := Some(merged);
    }
  }

  /** The text-extraction rule for sub-options never fails, and merging is
      monotone: entries already held stay unless the text sets them again. */
  lemma ExtractKeeps(tokens: string, text: string, so: Entries, key: string)
    requires key in so
    ensures Extract(tokens)(text, so).Some?
    ensures key in Extract(tokens)(text, so).value
  {
    SubprocessLookup(CString(FirstWord(text)), Tokenizer.Tokens(tokens), so, key);
  }
}
