/** The contact-form function of netlify/functions/contact.js: the
    validation of a submitted form and the handler's choice between
    405, 400 and 200 responses, with the cleaned record a valid form
    yields. */
module ContactForm {
  import opened Text

  /** A decoded request body: field name to submitted text. */
  type FormData = map<string, string>

  /** The fields that must be filled, in the order their errors appear. */
  const RequiredFields: seq<string> := ["name", "email", "message"]

  const EmailError: string := "邮箱格式不正确"
  const PhoneError: string := "电话格式不正确"

  /** The error reported for an unfilled required field. */
  function RequiredError(field: string): string {
    field + " 是必填字段"
  }

  /** A field's text, or the empty string when the body has no such field. */
  function Field(data: FormData, f: string): string {
    if f in data then data[f] else ""
  }

  /** The field is given and not empty (a truthy value). */
  predicate Present(data: FormData, f: string) {
    Field(data, f) != []
  }

  /** The field is absent, empty or only whitespace. */
  predicate Missing(data: FormData, f: string) {
    var s := Field(data, f);
    forall i | 0 <= i < |s| :: IsJsSpace(s[i])
  }

  /** A field is missing exactly when `trim()` leaves nothing of it. */
  lemma MissingIsBlankTrim(data: FormData, f: string)
    ensures Missing(data, f) <==> Trim(Field(data, f), IsJsSpace) == []
  {
  }

  // ---------------------------------------------------------------------
  // Format checks
  // ---------------------------------------------------------------------

  /** `[^\s@]`. */
  predicate EmailChar(c: char) {
    !IsJsSpace(c) && c != '@'
  }

  /** The part after `@`: e-mail characters with a `.` that has at least
      one character on each side. */
  predicate DomainPart(d: string) {
    AllOf(d, EmailChar) && exists q | 0 < q < |d| - 1 :: DotAt(d, q)
  }

  /** A `.` at `q` with at least one character on each side. */
  predicate DotAt(d: string, q: int) {
    0 < q < |d| - 1 && d[q] == '.'
  }

  /** The e-mail check: a non-empty local part, one `@`, and a domain part. */
  predicate IsEmail(s: string) {
    exists p | 0 < p < |s| :: EmailAt(s, p)
  }

  /** The `@` at `p` separates a non-empty local part and a domain part. */
  predicate EmailAt(s: string, p: int) {
    0 < p < |s| && s[p] == '@' && AllOf(s[..p], EmailChar) && DomainPart(s[p + 1..])
  }

  /** What `^[^\s@]+@[^\s@]+\.[^\s@]+$` matches, stated as the pattern's
      three non-empty runs around `@` and `.`. */
  ghost predicate EmailPattern(s: string) {
    exists a: string, b: string, c: string :: PatternRuns(s, a, b, c)
  }

  /** `s` is the runs `a`, `b`, `c` of e-mail characters joined by `@` and `.`. */
  predicate PatternRuns(s: string, a: string, b: string, c: string) {
    && s == a + "@" + b + "." + c
    && a != [] && b != [] && c != []
    && AllOf(a, EmailChar) && AllOf(b, EmailChar) && AllOf(c, EmailChar)
  }

  /** The e-mail check accepts exactly what the pattern matches. */
  lemma EmailCheckIsPattern(s: string)
    ensures IsEmail(s) <==> EmailPattern(s)
  {
    if IsEmail(s) {
      EmailCheckMatches(s);
    }
    if EmailPattern(s) {
      var a: string, b: string, c: string :| PatternRuns(s, a, b, c);
      PatternPasses(a, b, c);
    }
  }

  /** A string the e-mail check accepts splits into the pattern's runs. */
  lemma EmailCheckMatches(s: string)
    requires IsEmail(s)
    ensures EmailPattern(s)
  {
    var p :| EmailAt(s, p);
    assert EmailAt(s, p);
    var d := s[p + 1..];
    var q' :| DotAt(d, q');
    assert DotAt(d, q');
    var q := p + 1 + q';
    assert s[q] == '.';
    var a, b, c := s[..p], s[p + 1..q], s[q + 1..];
    SplitAround(s, p, q);
    assert AllOf(d, EmailChar);
    assert b == d[..q'] && c == d[q' + 1..];
    AllOfSlice(d, 0, q');
    AllOfSlice(d, q' + 1, |d|);
    assert PatternRuns(s, a, b, c);
  }

  /** A slice of e-mail characters is made of e-mail characters. */
  lemma AllOfSlice(d: string, i: nat, j: nat)
    requires i <= j <= |d| && AllOf(d, EmailChar)
    ensures AllOf(d[i..j], EmailChar)
  {
    assert forall k | 0 <= k < j - i :: d[i..j][k] == d[i + k];
  }

  /** Cutting a string at two characters and putting it back together. */
  lemma SplitAround(s: string, p: nat, q: nat)
    requires p < q < |s| && s[p] == '@' && s[q] == '.'
    ensures s == s[..p] + "@" + s[p + 1..q] + "." + s[q + 1..]
  {
    assert s == s[..p] + [s[p]] + s[p + 1..q] + [s[q]] + s[q + 1..];
  }

  /** Three runs of e-mail characters around `@` and `.` pass the check. */
  lemma PatternPasses(a: string, b: string, c: string)
    requires a != [] && b != [] && c != []
    requires AllOf(a, EmailChar) && AllOf(b, EmailChar) && AllOf(c, EmailChar)
    ensures IsEmail(a + "@" + b + "." + c)
  {
    var s := a + "@" + b + "." + c;
    var p := |a|;
    var d := s[p + 1..];
    assert s[p] == '@';
    assert s[..p] == a;
    assert d == b + "." + c;
    assert d[|b|] == '.';
    assert AllOf(d, EmailChar) by {
      forall i | 0 <= i < |d| ensures EmailChar(d[i]) {
        if i < |b| {
          assert d[i] == b[i];
        } else if i > |b| {
          assert d[i] == c[i - |b| - 1];
        }
      }
    }
    assert DotAt(d, |b|);
    assert EmailAt(s, p);
  }

  /** An e-mail has no whitespace at either end. */
  lemma EmailUntrimmed(e: string)
    requires IsEmail(e)
    ensures Trim(e, IsJsSpace) == e
  {
    var p :| EmailAt(e, p);
    assert EmailAt(e, p);
    assert e[..p][0] == e[0];
    assert e[p + 1..][|e| - p - 2] == e[|e| - 1];
    TrimOfClean(e, IsJsSpace);
  }

  /** Whitespace alone is no e-mail. */
  lemma BlankIsNoEmail(e: string)
    requires AllOf(e, IsJsSpace)
    ensures !IsEmail(e)
  {
    if IsEmail(e) {
      EmailUntrimmed(e);
    }
  }

  /** `[\d\s\-\+\(\)]`: an ASCII digit, whitespace, or one of `-+()`. */
  predicate PhoneChar(c: char) {
    ('0' <= c <= '9') || IsJsSpace(c) || c == '-' || c == '+' || c == '(' || c == ')'
  }

  /** `^[\d\s\-\+\(\)]+$`. */
  predicate IsPhone(s: string) {
    s != [] && AllOf(s, PhoneChar)
  }

  // ---------------------------------------------------------------------
  // validateFormData
  // ---------------------------------------------------------------------

  /** The required-field errors for `fields`, in order. */
  function RequiredErrors(data: FormData, fields: seq<string>): (r: seq<string>)
    ensures |r| <= |fields|
    decreases |fields|
  {
    if fields == [] then []
    else
      var last := fields[|fields| - 1];
      RequiredErrors(data, fields[..|fields| - 1]) + (if Missing(data, last) then [RequiredError(last)] else [])
  }

  /** Checking one more field appends at most its own error. */
  lemma RequiredErrorsStep(data: FormData, fields: seq<string>, k: nat)
    requires k < |fields|
    ensures RequiredErrors(data, fields[..k + 1]) ==
      RequiredErrors(data, fields[..k]) + (if Missing(data, fields[k]) then [RequiredError(fields[k])] else [])
  {
    assert fields[..k + 1][..k] == fields[..k];
  }

  /** Everything wrong with a form, in the order it is reported. */
  function Errors(data: FormData): seq<string> {
    RequiredErrors(data, RequiredFields)
    + (if Present(data, "email") && !IsEmail(Field(data, "email")) then [EmailError] else [])
    + (if Present(data, "phone") && !IsPhone(Field(data, "phone")) then [PhoneError] else [])
  }

  /** `validateFormData`. */
  method ValidateFormData(data: FormData) returns (errors: seq<string>)
    ensures errors == Errors(data)
  {
    errors := [];
    for k := 0 to |RequiredFields|
      invariant errors == RequiredErrors(data, RequiredFields[..k])
    {
      RequiredErrorsStep(data, RequiredFields, k);
      var field := RequiredFields[k];
      if Missing(data, field) {
        errors := errors + [RequiredError(field)];
      }
    }
    assert RequiredFields[..|RequiredFields|] == RequiredFields;
    ghost var required := errors;
    if Present(data, "email") && !IsEmail(Field(data, "email")) {
      errors := errors + [EmailError];
    }
    if Present(data, "phone") && !IsPhone(Field(data, "phone")) {
      errors := errors + [PhoneError];
    }
    assert required == RequiredErrors(data, RequiredFields);
  }

  /** The required-field errors name exactly the unfilled fields, in order. */
  lemma RequiredErrorsOfFields(data: FormData)
    ensures RequiredErrors(data, RequiredFields)
            == (if Missing(data, "name") then [RequiredError("name")] else [])
               + (if Missing(data, "email") then [RequiredError("email")] else [])
               + (if Missing(data, "message") then [RequiredError("message")] else [])
  {
    assert RequiredFields[..2][..1] == ["name"] && RequiredFields[..2] == ["name", "email"];
    assert RequiredFields[..1][..0] == [];
    assert RequiredFields[..|RequiredFields| - 1] == ["name", "email"];
  }

  /** A form passes exactly when name, e-mail and message are filled, the
      e-mail has the required shape and a given phone has only phone
      characters. */
  lemma NoErrorsIff(data: FormData)
    ensures Errors(data) == [] <==>
              && !Missing(data, "name") && !Missing(data, "email") && !Missing(data, "message")
              && IsEmail(Field(data, "email"))
              && (Present(data, "phone") ==> IsPhone(Field(data, "phone")))
  {
    RequiredErrorsOfFields(data);
    if !Missing(data, "email") {
      assert Present(data, "email");
    }
  }

  /** At most five errors are reported: one per required field and one
      per format check. */
  lemma ErrorCount(data: FormData)
    ensures |Errors(data)| <= 5
  {
    RequiredErrorsOfFields(data);
  }

  /** An e-mail of only whitespace is reported twice: as unfilled and as
      malformed. */
  lemma BlankEmailTwice(data: FormData)
    requires Present(data, "email") && AllOf(Field(data, "email"), IsJsSpace)
    ensures RequiredError("email") in Errors(data) && EmailError in Errors(data)
  {
    RequiredErrorsOfFields(data);
    BlankIsNoEmail(Field(data, "email"));
    var required := RequiredErrors(data, RequiredFields);
    var phone := if Present(data, "phone") && !IsPhone(Field(data, "phone")) then [PhoneError] else [];
    assert Errors(data) == required + [EmailError] + phone;
    assert RequiredError("email") in required;
  }

  // ---------------------------------------------------------------------
  // handler
  // ---------------------------------------------------------------------

  datatype Request = Request(httpMethod: string, body: FormData)

  /** The record a valid submission yields. */
  datatype Cleaned = Cleaned(name: string, email: string, phone: string, company: string, message: string, timestamp: string)

  /** The handler's answers: 405 for a method other than POST, 400 with
      the validation errors, 200 after a valid submission. */
  datatype Response = NotAllowed | Rejected(errors: seq<string>) | Accepted(cleaned: Cleaned)

  function StatusCode(r: Response): nat {
    match r
    case NotAllowed => 405
    case Rejected(_) => 400
    case Accepted(_) => 200
  }

  function Headers(r: Response): map<string, string> {
    match r
    case NotAllowed => map["Content-Type" := "application/json", "Allow" := "POST"]
    case Rejected(_) => map["Content-Type" := "application/json"]
    case Accepted(_) =>
      map["Content-Type" := "application/json", "Access-Control-Allow-Origin" := "*",
          "Access-Control-Allow-Headers" := "Content-Type", "Access-Control-Allow-Methods" := "POST, OPTIONS"]
  }

  /** The `success` flag of the response body. */
  function Success(r: Response): bool {
    r.Accepted?
  }

  /** The `data` of the response body: a 200 reports only the time of
      handling, never the submitted fields; the other answers have none. */
  function Data(r: Response): map<string, string> {
    match r
    case Accepted(c) => map["timestamp" := c.timestamp]
    case _ => map[]
  }

  /** The cleaned record: required fields trimmed, optional ones trimmed or
      empty when not given, and the time of handling. */
  function CleanedOf(data: FormData, now: string): (c: Cleaned)
    ensures c.name == Trim(Field(data, "name"), IsJsSpace)
    ensures c.email == Trim(Field(data, "email"), IsJsSpace)
    ensures c.message == Trim(Field(data, "message"), IsJsSpace)
    ensures c.timestamp == now
    ensures Present(data, "phone") ==> c.phone == Trim(Field(data, "phone"), IsJsSpace)
    ensures !Present(data, "phone") ==> c.phone == []
    ensures Present(data, "company") ==> c.company == Trim(Field(data, "company"), IsJsSpace)
    ensures !Present(data, "company") ==> c.company == []
  {
    Cleaned(
      Trim(Field(data, "name"), IsJsSpace),
      Trim(Field(data, "email"), IsJsSpace),
      if Present(data, "phone") then Trim(Field(data, "phone"), IsJsSpace) else "",
      if Present(data, "company") then Trim(Field(data, "company"), IsJsSpace) else "",
      Trim(Field(data, "message"), IsJsSpace),
      now)
  }

  /** `exports.handler`: the method check, then validation, then the
      cleaned record.  `now` stands for the clock. */
  method Handler(req: Request, now: string) returns (resp: Response)
    ensures req.httpMethod != "POST" <==> resp == NotAllowed
    ensures req.httpMethod == "POST" && Errors(req.body) != [] ==> resp == Rejected(Errors(req.body))
    ensures req.httpMethod == "POST" && Errors(req.body) == [] ==> resp == Accepted(CleanedOf(req.body, now))
  {
    if req.httpMethod != "POST" {
      return NotAllowed;
    }
    var errors := ValidateFormData(req.body);
    if |errors| > 0 {
      return Rejected(errors);
    }
    return Accepted(CleanedOf(req.body, now));
  }

  /** Which headers each status carries. */
  lemma HeadersByStatus(resp: Response)
    ensures "Content-Type" in Headers(resp) && Headers(resp)["Content-Type"] == "application/json"
    ensures "Allow" in Headers(resp) <==> StatusCode(resp) == 405
    ensures "Allow" in Headers(resp) ==> Headers(resp)["Allow"] == "POST"
    ensures "Access-Control-Allow-Origin" in Headers(resp) <==> StatusCode(resp) == 200
  {
    match resp
    case NotAllowed =>
    case Rejected(_) =>
      assert "Allow" !in Headers(resp) && "Access-Control-Allow-Origin" !in Headers(resp);
    case Accepted(_) =>
      assert "Allow" !in Headers(resp);
  }

  /** A response reports success exactly when its status is 200, and a
      400 always carries at least one error.  Every answer is JSON; only
      the 405 names the allowed method, only the 200 carries the CORS
      headers, and the 200 hands back nothing of the form but the time of
      handling. */
  lemma StatusAgreesWithBody(req: Request, now: string, resp: Response)
    requires req.httpMethod != "POST" ==> resp == NotAllowed
    requires req.httpMethod == "POST" && Errors(req.body) != [] ==> resp == Rejected(Errors(req.body))
    requires req.httpMethod == "POST" && Errors(req.body) == [] ==> resp == Accepted(CleanedOf(req.body, now))
    ensures StatusCode(resp) in {200, 400, 405}
    ensures Success(resp) <==> StatusCode(resp) == 200
    ensures StatusCode(resp) == 400 ==> resp.errors != []
    ensures StatusCode(resp) == 405 <==> req.httpMethod != "POST"
    ensures "Content-Type" in Headers(resp) && Headers(resp)["Content-Type"] == "application/json"
    ensures "Allow" in Headers(resp) <==> StatusCode(resp) == 405
    ensures "Allow" in Headers(resp) ==> Headers(resp)["Allow"] == "POST"
    ensures "Access-Control-Allow-Origin" in Headers(resp) <==> StatusCode(resp) == 200
    ensures StatusCode(resp) == 200 ==> Data(resp) == map["timestamp" := now]
    ensures StatusCode(resp) != 200 ==> Data(resp) == map[]
  {
    HeadersByStatus(resp);
    if resp.Accepted? {
      assert resp.cleaned == CleanedOf(req.body, now);
    }
  }

  /** Trimming keeps only phone characters of a phone number. */
  lemma PhoneTrimmed(ph: string)
    requires IsPhone(ph)
    ensures AllOf(Trim(ph, IsJsSpace), PhoneChar)
  {
    TrimSlice(ph, IsJsSpace);
    var t := Trim(ph, IsJsSpace);
    var a := LeadingRun(ph, IsJsSpace);
    forall i | 0 <= i < |t| ensures PhoneChar(t[i]) {
      assert t[i] == ph[a + i];
    }
  }

  /** The record of an accepted form: name and message are non-empty
      with no surrounding whitespace. */
  lemma AcceptedRecord(data: FormData, now: string)
    requires Errors(data) == []
    ensures var c := CleanedOf(data, now);
            && c.name != [] && !IsJsSpace(c.name[0]) && !IsJsSpace(c.name[|c.name| - 1])
            && c.message != [] && !IsJsSpace(c.message[0]) && !IsJsSpace(c.message[|c.message| - 1])
  {
    NoErrorsIff(data);
    FilledTrimmed(Field(data, "name"));
    FilledTrimmed(Field(data, "message"));
  }

  /** A filled field trims to a non-empty string with no surrounding
      whitespace. */
  lemma FilledTrimmed(s: string)
    requires !AllOf(s, IsJsSpace)
    ensures var t := Trim(s, IsJsSpace);
            t != [] && !IsJsSpace(t[0]) && !IsJsSpace(t[|t| - 1])
  {
  }

  /** In the record of an accepted form the e-mail is kept exactly as
      submitted and has the e-mail shape, and the phone has only phone
      characters. */
  lemma AcceptedContact(data: FormData, now: string)
    requires Errors(data) == []
    ensures var c := CleanedOf(data, now);
            && c.email == Field(data, "email") && IsEmail(c.email)
            && AllOf(c.phone, PhoneChar)
  {
    NoErrorsIff(data);
    EmailUntrimmed(Field(data, "email"));
    if Present(data, "phone") {
      PhoneTrimmed(Field(data, "phone"));
    }
  }
}
