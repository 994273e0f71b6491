/**
  The validation rules the location form registers with react-hook-form,
  as a predicate over the submitted record. The code is optional; when it
  is given it must be exactly three ASCII letters. Name, country and city
  are required. Nothing is normalised: the `uppercase` on the code input is
  a CSS class, so the submitted value keeps the case it was typed in.
*/
module LocationForm {
  import opened Wrappers

  datatype LocationFormData = LocationFormData(code: string, name: string, country: string, city: string)

  /** The rules registered for `code`; it has no `required` rule. */
  datatype CodeRule = MinLength | MaxLength | Pattern

  const LENGTH_MESSAGE: string := "Must be exactly 3 characters"
  const PATTERN_MESSAGE: string := "Must confirm to IATA format (3 letters)"

  function RuleMessage(rule: CodeRule): string {
    match rule
    case MinLength => LENGTH_MESSAGE
    case MaxLength => LENGTH_MESSAGE
    case Pattern => PATTERN_MESSAGE
  }

  /** `[A-Za-z]`. */
  predicate IsAsciiLetter(c: char) {
    'A' <= c <= 'Z' || 'a' <= c <= 'z'
  }

  /**
    The number of UTF-16 code units JavaScript stores for `c`: two (a
    surrogate pair) for a character beyond U+FFFF, one otherwise.
  */
  function CodeUnits(c: char): nat {
    if c as int > 0xFFFF then 2 else 1
  }

  /** A string's JavaScript `length`: its UTF-16 code units, not its characters. */
  function Utf16Length(s: string): (n: nat)
    ensures |s| <= n <= 2 * |s|
  {
    if |s| == 0 then 0 else Utf16Length(s[..|s| - 1]) + CodeUnits(s[|s| - 1])
  }

  lemma {:induction false} Utf16LengthAppend(a: string, b: string)
    ensures Utf16Length(a + b) == Utf16Length(a) + Utf16Length(b)
    decreases |b|
  {
    if |b| > 0 {
      assert (a + b)[..|a + b| - 1] == a + b[..|b| - 1];
      Utf16LengthAppend(a, b[..|b| - 1]);
    } else {
      assert a + b == a;
    }
  }

  /** Characters up to U+FFFF are one code unit each, so such a string's `length` is its character count. */
  lemma {:induction false} Utf16LengthOfBmp(s: string)
    requires forall i :: 0 <= i < |s| ==> CodeUnits(s[i]) == 1
    ensures Utf16Length(s) == |s|
    decreases |s|
  {
    if |s| > 0 {
      Utf16LengthOfBmp(s[..|s| - 1]);
    }
  }

  /**
    `/^[A-Za-z]{3}$/`. Without the `u` flag the expression reads code units;
    the halves of a surrogate pair are not letters, so a match is exactly
    three characters, each an ASCII letter.
  */
  predicate MatchesIataPattern(value: string)
    ensures MatchesIataPattern(value) <==>
      |value| == 3 && IsAsciiLetter(value[0]) && IsAsciiLetter(value[1]) && IsAsciiLetter(value[2])
  {
    |value| == 3 && forall i :: 0 <= i < |value| ==> IsAsciiLetter(value[i])
  }

  /** Whether `rule` holds of a non-empty value; react-hook-form compares `value.length`. */
  predicate RuleHolds(rule: CodeRule, value: string) {
    match rule
    case MinLength => Utf16Length(value) >= 3
    case MaxLength => Utf16Length(value) <= 3
    case Pattern => MatchesIataPattern(value)
  }

  /**
    The rules a code value fails. react-hook-form checks length and pattern
    rules only for a non-empty value, so an empty code fails none.
  */
  function FailedCodeRules(code: string): (failed: set<CodeRule>)
    ensures code == "" ==> failed == {}
    ensures code != "" ==> forall rule :: rule in failed <==> !RuleHolds(rule, code)
    ensures failed == {} <==> code == "" || MatchesIataPattern(code)
  {
    if code == "" then {}
    else if MatchesIataPattern(code) then
      PatternFixesLength(code);
      {}
    else
      (if Utf16Length(code) < 3 then {MinLength} else {})
      + (if Utf16Length(code) > 3 then {MaxLength} else {})
      + {Pattern}
  }

  /**
    The message shown under the code field. react-hook-form reports the
    length rules before the pattern; both length rules share one message.
  */
  function CodeError(code: string): (message: Option<string>)
    ensures message.None? <==> FailedCodeRules(code) == {}
    ensures message.Some? ==> exists rule :: rule in FailedCodeRules(code) && message.value == RuleMessage(rule)
  {
    var failed := FailedCodeRules(code);
    if failed == {} then None
    else if MinLength in failed then Some(RuleMessage(MinLength))
    else if MaxLength in failed then Some(RuleMessage(MaxLength))
    else Some(RuleMessage(Pattern))
  }

  /** A code passes when it is empty or exactly three ASCII letters. */
  lemma CodeAcceptedIff(code: string)
    ensures FailedCodeRules(code) == {} <==>
      code == "" || (|code| == 3 && forall i :: 0 <= i < 3 ==> IsAsciiLetter(code[i]))
  {
    if code != "" && !MatchesIataPattern(code) {
      assert Pattern in FailedCodeRules(code);
    }
    if MatchesIataPattern(code) {
      PatternFixesLength(code);
    }
  }

  /** A value the pattern accepts is three code units long. */
  lemma PatternFixesLength(code: string)
    requires MatchesIataPattern(code)
    ensures Utf16Length(code) == 3
  {
    Utf16LengthOfBmp(code);
  }

  /** Whatever the pattern accepts also passes both length rules: they are redundant. */
  lemma PatternImpliesLengthRules(code: string)
    ensures Pattern !in FailedCodeRules(code) ==>
      MinLength !in FailedCodeRules(code) && MaxLength !in FailedCodeRules(code)
  {
    if code != "" && MatchesIataPattern(code) {
      PatternFixesLength(code);
    }
  }

  /**
    A value of three code units with a non-letter among its characters fails
    the pattern alone, with the IATA message.
  */
  lemma ThreeCharactersWithNonLetter(code: string, k: nat)
    requires Utf16Length(code) == 3 && k < |code| && !IsAsciiLetter(code[k])
    ensures FailedCodeRules(code) == {Pattern}
    ensures CodeError(code) == Some(PATTERN_MESSAGE)
  {
    RulesAtThreeUnits(code);
    assert !MatchesIataPattern(code) by {
      assert !IsAsciiLetter(code[k]);
    }
  }

  /** At three code units both length rules hold, and only the pattern can fail. */
  lemma RulesAtThreeUnits(code: string)
    requires Utf16Length(code) == 3
    ensures FailedCodeRules(code) == if MatchesIataPattern(code) then {} else {Pattern}
  {
    assert code != "";
  }

  /** "A" and U+1F600 are three code units: only the pattern fails. */
  lemma AstralCharacterCountsTwice()
    ensures FailedCodeRules("A\U{1F600}") == {Pattern}
    ensures CodeError("A\U{1F600}") == Some(PATTERN_MESSAGE)
  {
    ThreeCharactersWithNonLetter("A\U{1F600}", 1);
  }

  /** "AB" and U+1F600 are three characters but four code units: maxLength fails, and its message wins. */
  lemma ThreeCharactersFourUnits()
    ensures FailedCodeRules("AB\U{1F600}") == {MaxLength, Pattern}
    ensures CodeError("AB\U{1F600}") == Some(LENGTH_MESSAGE)
  {
    assert Utf16Length("AB\U{1F600}") == 4 by {
      assert "AB\U{1F600}"[..2] == "AB";
      assert "AB"[..1] == "A";
      assert "A"[..0] == "";
    }
    assert !MatchesIataPattern("AB\U{1F600}");
  }

  /** `required`: react-hook-form rejects an empty text value. */
  predicate Present(value: string) {
    value != ""
  }

  /** Every registered rule passes, so `handleSubmit` calls `onSubmit`. */
  predicate Valid(form: LocationFormData)
    ensures Valid(form) <==>
      && form.name != "" && form.country != "" && form.city != ""
      && (form.code == "" || MatchesIataPattern(form.code))
  {
    && FailedCodeRules(form.code) == {}
    && Present(form.name)
    && Present(form.country)
    && Present(form.city)
  }

  /** The form is valid iff name, country and city are non-empty and the code is empty or three letters. */
  lemma ValidIff(form: LocationFormData)
    ensures Valid(form) <==>
      && form.name != "" && form.country != "" && form.city != ""
      && (form.code == "" || (|form.code| == 3 && forall i :: 0 <= i < 3 ==> IsAsciiLetter(form.code[i])))
  {
    CodeAcceptedIff(form.code);
  }

  const NAME_REQUIRED: string := "Location name is required"
  const COUNTRY_REQUIRED: string := "Country is required"
  const CITY_REQUIRED: string := "City is required"

  /** The message of a `required` rule: shown exactly when the value is empty. */
  function RequiredError(value: string, message: string): (e: Option<string>)
    ensures e.None? <==> Present(value)
    ensures e.Some? ==> e.value == message
  {
    if value == "" then Some(message) else None
  }

  /** The message under each field, or None when its rules pass. */
  datatype FormErrors = FormErrors(code: Option<string>, name: Option<string>, country: Option<string>, city: Option<string>)

  /** `formState.errors` after a submit attempt: every field checked, each with its own message. */
  function Errors(form: LocationFormData): (e: FormErrors)
    ensures e == FormErrors(None, None, None, None) <==> Valid(form)
    ensures e.name == (if form.name == "" then Some(NAME_REQUIRED) else None)
    ensures e.country == (if form.country == "" then Some(COUNTRY_REQUIRED) else None)
    ensures e.city == (if form.city == "" then Some(CITY_REQUIRED) else None)
    ensures e.code.Some? <==> FailedCodeRules(form.code) != {}
  {
    FormErrors(
      CodeError(form.code),
      RequiredError(form.name, NAME_REQUIRED),
      RequiredError(form.country, COUNTRY_REQUIRED),
      RequiredError(form.city, CITY_REQUIRED))
  }

  /** What `onSubmit` receives: the record exactly as entered, or nothing when a rule fails. */
  function Submit(form: LocationFormData): (submitted: Option<LocationFormData>)
    ensures submitted.Some? <==> Valid(form)
    ensures submitted.Some? ==> submitted.value == form
  {
    if Valid(form) then Some(form) else None
  }

  /** Lower-case codes are accepted and submitted in lower case. */
  lemma LowerCaseCodeKept()
    ensures Submit(LocationFormData("ist", "Istanbul Airport", "Turkey", "Istanbul"))
      == Some(LocationFormData("ist", "Istanbul Airport", "Turkey", "Istanbul"))
  {
    assert MatchesIataPattern("ist");
  }

  /** The form is valid without a code: the code is optional. */
  lemma CodeIsOptional(name: string, country: string, city: string)
    requires name != "" && country != "" && city != ""
    ensures Valid(LocationFormData("", name, country, city))
  {
  }

  /**
    `maxLength={3}` on the input. The browser counts code units too: a
    keystroke is taken, at the end of the value, only when the result stays
    within three units, and is otherwise ignored.
  */
  function KeyIn(value: string, c: char): (r: string)
    ensures r == value || r == value + [c]
    ensures r == value + [c] <==> Utf16Length(value) + CodeUnits(c) <= 3
    ensures Utf16Length(value) <= 3 ==> Utf16Length(r) <= 3
  {
    assert (value + [c])[..|value|] == value;
    if Utf16Length(value) + CodeUnits(c) <= 3 then value + [c] else value
  }

  /** The field after each of `keys` is typed in turn. */
  function TypeKeys(value: string, keys: string): (r: string)
    ensures value <= r && |r| <= |value| + |keys|
    ensures Utf16Length(value) <= 3 ==> Utf16Length(r) <= 3
    ensures Utf16Length(value) >= 3 ==> r == value
    decreases |keys|
  {
    if |keys| == 0 then value else TypeKeys(KeyIn(value, keys[0]), keys[1..])
  }

  /** Keys that fit in the room left are all taken, in order. */
  lemma {:induction false} KeysThatFitAreKept(value: string, keys: string)
    requires Utf16Length(value) + Utf16Length(keys) <= 3
    ensures TypeKeys(value, keys) == value + keys
    decreases |keys|
  {
    if |keys| == 0 {
      assert value + keys == value;
    } else {
      assert [keys[0]] + keys[1..] == keys;
      Utf16LengthAppend([keys[0]], keys[1..]);
      assert Utf16Length([keys[0]]) == CodeUnits(keys[0]) by {
        assert [keys[0]][..0] == [];
      }
      var next := KeyIn(value, keys[0]);
      assert next == value + [keys[0]];
      Utf16LengthAppend(value, [keys[0]]);
      KeysThatFitAreKept(next, keys[1..]);
      assert next + keys[1..] == value + keys;
    }
  }

  /**
    Typing keys of one code unit each into a code field of at most three
    units fills it up to three with the first keystrokes and drops the rest.
  */
  lemma {:induction false} TypingCapsAtThree(value: string, keys: string)
    requires Utf16Length(value) <= 3
    requires forall i :: 0 <= i < |keys| ==> CodeUnits(keys[i]) == 1
    ensures var r := TypeKeys(value, keys);
      && Utf16Length(r) == (if Utf16Length(value) + |keys| < 3 then Utf16Length(value) + |keys| else 3)
      && r == (value + keys)[..|r|]
    decreases |keys|
  {
    if |keys| == 0 {
      assert value + keys == value;
    } else if Utf16Length(value) < 3 {
      TakeOneUnitKey(value, keys);
      var next := value + [keys[0]];
      TypingCapsAtThree(next, keys[1..]);
    } else {
      var r := TypeKeys(value, keys);
      assert r == value;
      assert (value + keys)[..|value|] == value;
    }
  }

  /** One step of `TypingCapsAtThree`: a one-unit key that fits is appended. */
  lemma TakeOneUnitKey(value: string, keys: string)
    requires Utf16Length(value) < 3 && |keys| > 0 && CodeUnits(keys[0]) == 1
    requires forall i :: 0 <= i < |keys| ==> CodeUnits(keys[i]) == 1
    ensures TypeKeys(value, keys) == TypeKeys(value + [keys[0]], keys[1..])
    ensures Utf16Length(value + [keys[0]]) == Utf16Length(value) + 1
    ensures (value + [keys[0]]) + keys[1..] == value + keys
    ensures forall i :: 0 <= i < |keys[1..]| ==> CodeUnits(keys[1..][i]) == 1
  {
    var next := value + [keys[0]];
    assert next[..|next| - 1] == value && next[|next| - 1] == keys[0];
    assert Utf16Length(next) == Utf16Length(value) + 1;
    assert KeyIn(value, keys[0]) == next;
    assert next + keys[1..] == value + keys;
  }

  /**
    A key that does not fit is dropped, but a later one-unit key still fits:
    typing U+1F600 then "C" after "AB" gives "ABC".
  */
  lemma DroppedKeyLaterKeyFits()
    ensures TypeKeys("AB", "\U{1F600}C") == "ABC"
  {
    assert Utf16Length("AB") == 2 by {
      assert "AB"[..1] == "A";
      assert "A"[..0] == "";
    }
    assert KeyIn("AB", '\U{1F600}') == "AB";
    assert "\U{1F600}C"[1..] == "C";
    assert KeyIn("AB", 'C') == "ABC";
    assert "C"[1..] == "";
  }
}
