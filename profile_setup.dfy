/**
 * The profile setup form: the username's format check, the sanitiser the
 * username input applies on every keystroke, the error shown once the
 * availability check answers, and the guard on submitting the form.
 */
module ProfileSetup {
  import opened Wrappers

  /** The four messages the form can show under the username. */
  datatype UsernameError = TooShort | TooLong | BadCharacters | Taken

  // ---------------------------------------------------------------------
  // The format check
  // ---------------------------------------------------------------------

  /** One character of the class `[a-z0-9_]`. */
  predicate Allowed(c: char) {
    ('a' <= c <= 'z') || ('0' <= c <= '9') || c == '_'
  }

  /** `/^[a-z0-9_]*$/`, written as a walk over the string. */
  predicate AllAllowed(s: string)
    ensures AllAllowed(s) <==> forall i :: 0 <= i < |s| ==> Allowed(s[i])
  {
    s == [] || (Allowed(s[0]) && AllAllowed(s[1..]))
  }

  /** `validateUsername`: the first failing check wins, in the order length, length, characters. */
  function ValidateUsername(value: string): (r: Option<UsernameError>)
    ensures r == None <==> 3 <= |value| <= 20 && forall i :: 0 <= i < |value| ==> Allowed(value[i])
    ensures r == Some(TooShort) <==> |value| < 3
    ensures r == Some(TooLong) <==> |value| > 20
    ensures r == Some(BadCharacters) <==> 3 <= |value| <= 20 && exists i :: 0 <= i < |value| && !Allowed(value[i])
    ensures r != Some(Taken)
  {
    if |value| < 3 then Some(TooShort)
    else if |value| > 20 then Some(TooLong)
    // The pattern's `+` asks for one character; the length check already gave three.
    else if !AllAllowed(value) then Some(BadCharacters)
    else None
  }

  // ---------------------------------------------------------------------
  // The input sanitiser: `toLowerCase()`, then strip `[^a-z0-9_]`
  // ---------------------------------------------------------------------

  /**
   * Lower-casing of one character, exact for every character whose lower
   * case can survive the strip that follows: A-Z, the Kelvin sign (which
   * lowers to `k`) and the capital I with dot above (which lowers to `i`
   * followed by a combining dot). Every other character is kept as it
   * is; neither it nor its true lower case is in `[a-z0-9_]`.
   */
  function LowerChar(c: char): (r: string)
    ensures 1 <= |r| <= 2
    ensures Allowed(c) ==> r == [c]
  {
    if 'A' <= c <= 'Z' then [(c as int + 32) as char]
    else if c == '\U{212A}' then ['k']
    else if c == '\U{0130}' then ['i', '\U{0307}']
    else [c]
  }

  function ToLower(s: string): (r: string)
    ensures |s| <= |r| <= 2 * |s|
  {
    if s == [] then [] else LowerChar(s[0]) + ToLower(s[1..])
  }

  /** `replace(/[^a-z0-9_]/g, '')`. */
  function Strip(s: string): (r: string)
    ensures AllAllowed(r)
    ensures |r| <= |s|
    ensures forall c :: c in r <==> c in s && Allowed(c)
  {
    if s == [] then []
    else if Allowed(s[0]) then [s[0]] + Strip(s[1..])
    else Strip(s[1..])
  }

  /** The username input's `onChange`: what lands in the `username` state. */
  function Sanitise(raw: string): (r: string)
    ensures AllAllowed(r) && |r| <= 2 * |raw|
  {
    Strip(ToLower(raw))
  }

  lemma {:induction false} LowerFixesAllowed(s: string)
    requires AllAllowed(s)
    ensures ToLower(s) == s
  {
    if s != [] {
      LowerFixesAllowed(s[1..]);
      assert ToLower(s) == [s[0]] + ToLower(s[1..]);
    }
  }

  lemma {:induction false} StripFixesAllowed(s: string)
    requires AllAllowed(s)
    ensures Strip(s) == s
  {
    if s != [] {
      StripFixesAllowed(s[1..]);
      assert Strip(s) == [s[0]] + Strip(s[1..]);
    }
  }

  /** The sanitiser leaves a string alone exactly when it is made of allowed characters. */
  lemma SanitiseFixesExactlyAllowed(s: string)
    ensures Sanitise(s) == s <==> AllAllowed(s)
  {
    if AllAllowed(s) {
      LowerFixesAllowed(s);
      StripFixesAllowed(s);
    }
  }

  /** Only `[a-z0-9_]` comes out, and sanitising twice changes nothing. */
  lemma SanitiseIdempotent(raw: string)
    ensures AllAllowed(Sanitise(raw))
    ensures Sanitise(Sanitise(raw)) == Sanitise(raw)
  {
    SanitiseFixesExactlyAllowed(Sanitise(raw));
  }

  /** The lower case of an ASCII letter; any other character as it is. */
  function AsciiLower(c: char): char {
    if 'A' <= c <= 'Z' then (c as int + 32) as char else c
  }

  /**
   * A name typed in ASCII letters, digits and underscores comes through
   * character by character: each upper-case letter as its lower case,
   * everything else unchanged; nothing is stripped.
   */
  lemma {:induction false} SanitiseKeepsLetters(raw: string)
    requires forall i :: 0 <= i < |raw| ==> Allowed(raw[i]) || 'A' <= raw[i] <= 'Z'
    ensures |Sanitise(raw)| == |raw|
    ensures forall i :: 0 <= i < |raw| ==> Sanitise(raw)[i] == AsciiLower(raw[i])
  {
    if raw != [] {
      SanitiseKeepsLetters(raw[1..]);
      var c := AsciiLower(raw[0]);
      assert LowerChar(raw[0]) == [c] && Allowed(c);
      assert ToLower(raw) == [c] + ToLower(raw[1..]);
      assert Strip(ToLower(raw)) == [c] + Strip(ToLower(raw[1..]));
      forall i | 1 <= i < |raw|
        ensures Sanitise(raw)[i] == AsciiLower(raw[i])
      {
        assert Sanitise(raw)[i] == Sanitise(raw[1..])[i - 1];
        assert raw[1..][i - 1] == raw[i];
      }
    }
  }

  /** A typed username can be too short or too long, but never has a bad character. */
  lemma SanitisedNeverBadCharacters(raw: string)
    ensures ValidateUsername(Sanitise(raw)) != Some(BadCharacters)
  {
    SanitiseIdempotent(raw);
  }

  // ---------------------------------------------------------------------
  // The availability check and the submit guard
  // ---------------------------------------------------------------------

  /**
   * The username error once the effect has run for `username` and, when
   * the format passed, the availability check has answered `available`.
   */
  function ErrorAfterCheck(username: string, available: bool): (r: Option<UsernameError>)
    ensures ValidateUsername(username).Some? ==> r == ValidateUsername(username)
    ensures r == None <==> ValidateUsername(username) == None && available
    ensures r == Some(Taken) <==> ValidateUsername(username) == None && !available
  {
    var formatError := ValidateUsername(username);
    if formatError.Some? || username == [] then formatError
    else if available then None
    else Some(Taken)
  }

  /** JavaScript's WhiteSpace and LineTerminator characters, which `trim()` removes. */
  predicate JsWhitespace(c: char) {
    c == '\t' || c == '\n' || c == '\U{000B}' || c == '\U{000C}' || c == '\r' || c == ' '
    || c == '\U{00A0}' || c == '\U{1680}' || ('\U{2000}' <= c <= '\U{200A}')
    || c == '\U{2028}' || c == '\U{2029}' || c == '\U{202F}' || c == '\U{205F}'
    || c == '\U{3000}' || c == '\U{FEFF}'
  }

  /** The number of leading whitespace characters. */
  function Leading(s: string): (n: nat)
    ensures n <= |s|
    ensures forall i :: 0 <= i < n ==> JsWhitespace(s[i])
    ensures n < |s| ==> !JsWhitespace(s[n])
  {
    if s == [] || !JsWhitespace(s[0]) then 0 else 1 + Leading(s[1..])
  }

  /** The number of trailing whitespace characters. */
  function Trailing(s: string): (n: nat)
    ensures n <= |s|
    ensures forall i :: |s| - n <= i < |s| ==> JsWhitespace(s[i])
    ensures n < |s| ==> !JsWhitespace(s[|s| - n - 1])
  {
    if s == [] || !JsWhitespace(s[|s| - 1]) then 0 else 1 + Trailing(s[..|s| - 1])
  }

  /** `String.prototype.trim`: the string between the leading and the trailing whitespace. */
  function Trim(s: string): (r: string)
    ensures Leading(s) + |r| <= |s| && r == s[Leading(s)..Leading(s) + |r|]
  {
    var rest := s[Leading(s)..];
    rest[..|rest| - Trailing(rest)]
  }

  /** Trimming removes whitespace and nothing else, and stops at the first and last other character. */
  lemma TrimRemovesOnlyWhitespace(s: string)
    ensures Trim(s) == [] <==> forall i :: 0 <= i < |s| ==> JsWhitespace(s[i])
    ensures Trim(s) != [] ==> !JsWhitespace(Trim(s)[0]) && !JsWhitespace(Trim(s)[|Trim(s)| - 1])
    ensures forall i :: Leading(s) + |Trim(s)| <= i < |s| ==> JsWhitespace(s[i])
  {
    var lead := Leading(s);
    var rest := s[lead..];
    var trail := Trailing(rest);
    var r := Trim(s);
    assert r == rest[..|rest| - trail];
    forall i | lead + |r| <= i < |s|
      ensures JsWhitespace(s[i])
    {
      assert s[i] == rest[i - lead];
    }
    if r != [] {
      assert r[0] == s[lead];
      assert r[|r| - 1] == rest[|rest| - trail - 1];
    }
  }

  /** Trimming a trimmed string changes nothing. */
  lemma TrimIdempotent(s: string)
    ensures Trim(Trim(s)) == Trim(s)
  {
    var r := Trim(s);
    TrimRemovesOnlyWhitespace(s);
    if r != [] {
      assert Leading(r) == 0;
      assert Trailing(r) == 0;
    }
  }

  /** What `handleSubmit` passes on: the username and the trimmed display name, or nothing. */
  function Submission(usernameError: Option<UsernameError>, username: string, displayName: string): (r: Option<(string, string)>)
    ensures r.Some? <==> usernameError == None && username != [] && exists i :: 0 <= i < |displayName| && !JsWhitespace(displayName[i])
    ensures r.Some? ==> r.value == (username, Trim(displayName)) && r.value.1 != []
  {
    TrimRemovesOnlyWhitespace(displayName);
    if usernameError.Some? || username == [] || Trim(displayName) == [] then None
    else Some((username, Trim(displayName)))
  }

  /** The submit button: enabled only when the handler's guard passes and no check or submit is running. */
  predicate ButtonEnabled(usernameError: Option<UsernameError>, username: string, displayName: string, checking: bool, submitting: bool): (r: bool)
    ensures r <==> Submission(usernameError, username, displayName).Some? && !checking && !submitting
  {
    !(usernameError.Some? || username == [] || Trim(displayName) == [] || checking || submitting)
  }

  lemma ButtonEnabledSubmits(usernameError: Option<UsernameError>, username: string, displayName: string, checking: bool, submitting: bool)
    requires ButtonEnabled(usernameError, username, displayName, checking, submitting)
    ensures Submission(usernameError, username, displayName).Some?
    ensures !checking && !submitting
  {
  }

  /**
   * Once the check for `username` has answered, a submission goes out
   * only for a well-formed, available name and a display name that is not
   * blank.
   */
  lemma SubmittedNameIsValid(username: string, available: bool, displayName: string)
    requires Submission(ErrorAfterCheck(username, available), username, displayName).Some?
    ensures ValidateUsername(username) == None && available
    ensures 3 <= |username| <= 20 && AllAllowed(username)
    ensures Trim(displayName) != []
  {
  }
}
