// Client-side validation of the contact form's submit handler: the three
// required fields must be filled in, and the email must match
// /^[^\s@]+@[^\s@]+\.[^\s@]+$/.

module ContactForm {

  /** The characters JavaScript's `\s` class matches (WhiteSpace and LineTerminator). */
  predicate IsSpace(c: char)
  {
    c == ' ' || c == '\t' || c == '\n' || c == '\r' || c == '\U{000B}' || c == '\U{000C}' ||
    c == '\U{00A0}' || c == '\U{1680}' || ('\U{2000}' <= c <= '\U{200A}') ||
    c == '\U{2028}' || c == '\U{2029}' || c == '\U{202F}' || c == '\U{205F}' ||
    c == '\U{3000}' || c == '\U{FEFF}'
  }

  /** One character of the class `[^\s@]`. */
  predicate Plain(c: char)
  {
    !IsSpace(c) && c != '@'
  }

  /** The group `[^\s@]+`: a non-empty run of plain characters. */
  predicate PlainRun(s: string)
  {
    |s| > 0 && forall k :: 0 <= k < |s| ==> Plain(s[k])
  }

  /**
   * What the regular expression accepts: the whole string splits as
   * L + "@" + D + "." + T with L, D and T plain runs. `at` and `dot` are the
   * positions of the literal '@' and '.'.
   */
  ghost predicate RegexMatch(s: string)
  {
    exists at, dot :: 0 <= at < dot < |s| && SplitsAt(s, at, dot)
  }

  ghost predicate SplitsAt(s: string, at: nat, dot: nat)
    requires at < dot < |s|
  {
    s[at] == '@' && s[dot] == '.' &&
    PlainRun(s[..at]) && PlainRun(s[at + 1..dot]) && PlainRun(s[dot + 1..])
  }

  /** The number of '@' characters in s. */
  function CountAt(s: string): (n: nat)
    ensures n <= |s|
    ensures n == 0 <==> forall k :: 0 <= k < |s| ==> s[k] != '@'
  {
    if s == [] then 0 else (if s[0] == '@' then 1 else 0) + CountAt(s[1..])
  }

  /** The position of the first '@' of s, or |s| when there is none. */
  function IndexOfAt(s: string): (i: nat)
    ensures i <= |s|
    ensures i < |s| ==> s[i] == '@'
    ensures forall k :: 0 <= k < i ==> s[k] != '@'
  {
    if s == [] then 0 else if s[0] == '@' then 0 else 1 + IndexOfAt(s[1..])
  }

  /**
   * The same language described character by character: no whitespace,
   * exactly one '@', something before it, and a '.' after it that is
   * neither the first nor the last character of the domain.
   */
  predicate ValidEmail(s: string)
  {
    (forall k :: 0 <= k < |s| ==> !IsSpace(s[k])) &&
    CountAt(s) == 1 &&
    var at := IndexOfAt(s);
    0 < at && exists dot :: at + 1 < dot < |s| - 1 && s[dot] == '.'
  }

  /** The outcome of `handleSubmit`: which alert it raises. */
  datatype Outcome = MissingFields | InvalidEmail | Sent

  /** A form field counts as filled when FormData has it and it is not the empty string. */
  predicate Filled(data: map<string, string>, field: string)
  {
    field in data && data[field] != ""
  }

  /** The validation of `handleSubmit`, on the entries of the submitted form. */
  function HandleSubmit(data: map<string, string>): (r: Outcome)
    ensures r == Sent <==>
      Filled(data, "name") && Filled(data, "email") && Filled(data, "message") &&
      RegexMatch(data["email"])
    ensures r == MissingFields <==>
      !(Filled(data, "name") && Filled(data, "email") && Filled(data, "message"))
  {
    if !Filled(data, "name") || !Filled(data, "email") || !Filled(data, "message") then
      MissingFields
    else if !ValidEmail(data["email"]) then
      EmailMatches(data["email"]);
      InvalidEmail
    else
      EmailMatches(data["email"]);
      Sent
  }

  /** A string whose only '@' is at position `at` has exactly one '@', and it is the first. */
  lemma {:induction false} OnlyAt(s: string, at: nat)
    requires at < |s| && s[at] == '@'
    requires forall k :: 0 <= k < |s| && k != at ==> s[k] != '@'
    ensures CountAt(s) == 1 && IndexOfAt(s) == at
  {
    if at == 0 {
      assert forall k :: 0 <= k < |s| - 1 ==> s[1..][k] == s[k + 1];
    } else {
      OnlyAt(s[1..], at - 1);
    }
  }

  /** The regular expression and the character-level description accept the same strings. */
  lemma EmailMatches(s: string)
    ensures RegexMatch(s) <==> ValidEmail(s)
  {
    if RegexMatch(s) {
      var at, dot :| 0 <= at < dot < |s| && SplitsAt(s, at, dot);
      MatchIsValid(s, at, dot);
    }
    if ValidEmail(s) {
      ValidHasMatch(s);
    }
  }

  lemma MatchIsValid(s: string, at: nat, dot: nat)
    requires at < dot < |s| && SplitsAt(s, at, dot)
    ensures ValidEmail(s)
  {
    var l, d, t := s[..at], s[at + 1..dot], s[dot + 1..];
    assert s == l + ([s[at]] + d + [s[dot]]) + t;
    forall k | 0 <= k < |s| ensures !IsSpace(s[k]) && (k != at ==> s[k] != '@') {
      if k < at {
        assert s[k] == l[k];
      } else if at < k < dot {
        assert s[k] == d[k - at - 1];
      } else if dot < k {
        assert s[k] == t[k - dot - 1];
      }
    }
    OnlyAt(s, at);
  }

  /** In a string with a single '@', no character after the first '@' is another one. */
  lemma {:induction false} SingleAt(s: string)
    requires CountAt(s) == 1
    ensures IndexOfAt(s) < |s|
    ensures forall k :: IndexOfAt(s) < k < |s| ==> s[k] != '@'
  {
    if s[0] != '@' {
      SingleAt(s[1..]);
      assert forall k :: 1 <= k < |s| ==> s[k] == s[1..][k - 1];
    } else {
      assert forall k :: 1 <= k < |s| ==> s[k] == s[1..][k - 1];
    }
  }

  lemma ValidHasMatch(s: string)
    requires ValidEmail(s)
    ensures RegexMatch(s)
  {
    var at := IndexOfAt(s);
    var dot :| at + 1 < dot < |s| - 1 && s[dot] == '.';
    SingleAt(s);
    assert PlainRun(s[..at]);
    assert PlainRun(s[at + 1..dot]);
    assert PlainRun(s[dot + 1..]);
    assert SplitsAt(s, at, dot);
  }

  /**
   * Fields holding only spaces pass the required-field check, and a dot may
   * appear in the local part.
   */
  lemma SubmitSpaces()
    ensures HandleSubmit(map["name" := " ", "email" := "a.b@c.d", "message" := " "]) == Sent
  {
    var email := "a.b@c.d";
    assert email[..3] == "a.b" && email[4..5] == "c" && email[6..] == "d";
    assert SplitsAt(email, 3, 5);
  }

  /** An address without a dot after the '@' is refused. */
  lemma SubmitNoDot()
    ensures HandleSubmit(map["name" := "x", "email" := "a@b", "message" := "y"]) == InvalidEmail
  {
    var email := "a@b";
    assert email[1..] == "@b" && email[2..] == "b";
    assert !ValidEmail(email);
  }

  /** An address with two '@' is refused. */
  lemma SubmitTwoAts()
    ensures HandleSubmit(map["name" := "x", "email" := "a@b@c.d", "message" := "y"]) == InvalidEmail
  {
    var email := "a@b@c.d";
    assert email[1..] == "@b@c.d" && email[2..] == "b@c.d";
    assert CountAt(email) == 2;
  }

  /** A missing field is reported before the email is looked at: `a@b` alone would be refused. */
  lemma SubmitMissing()
    ensures HandleSubmit(map["name" := "x", "email" := "a@b"]) == MissingFields
    ensures HandleSubmit(map["name" := "x", "email" := "a@b", "message" := "y"]) == InvalidEmail
  {
    assert !Filled(map["name" := "x", "email" := "a@b"], "message");
    SubmitNoDot();
  }
}
