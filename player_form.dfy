/** The player entry form (src/pages/GameForm.js): five text fields, a
    validator that reports one message per failing field, the change
    handler that edits one field and clears that field's message, and the
    submit decision. */
module PlayerForm {
  import opened JsText
  import opened Wrappers

  datatype Form = Form(firstName: string, lastName: string, email: string,
                       jobTitle: string, companyName: string)

  /** The `name` attribute of each text field. */
  datatype Field = FirstName | LastName | Email | JobTitle | CompanyName

  const EmptyForm := Form("", "", "", "", "")

  function Get(form: Form, f: Field): string {
    match f
    case FirstName => form.firstName
    case LastName => form.lastName
    case Email => form.email
    case JobTitle => form.jobTitle
    case CompanyName => form.companyName
  }

  /** `{...prev, [name]: value}`: the named field takes the new value and
      every other field keeps its own. */
  function WithField(form: Form, f: Field, v: string): (r: Form)
    ensures Get(r, f) == v
    ensures forall g :: g != f ==> Get(r, g) == Get(form, g)
  {
    match f
    case FirstName => form.(firstName := v)
    case LastName => form.(lastName := v)
    case Email => form.(email := v)
    case JobTitle => form.(jobTitle := v)
    case CompanyName => form.(companyName := v)
  }

  /** The error-clearing half of `handleChange`: an entry whose message is
      non-empty is set to `''`; absent entries stay absent and the other
      entries keep their messages. */
  function ClearError(errors: map<Field, string>, f: Field): (r: map<Field, string>)
    ensures r.Keys == errors.Keys
    ensures forall g :: g in r ==> r[g] == if g == f then "" else errors[g]
  {
    if f in errors && errors[f] != "" then errors[f := ""] else errors
  }

  /** No whitespace at any position strictly between `a` and `d`. */
  ghost predicate SolidBetween(s: string, a: int, d: int) {
    forall k :: a < k < d ==> 0 <= k < |s| && !IsWhitespace(s[k])
  }

  /** `s[a]` is an `'@'` with a non-whitespace character before it, `s[d]`
      is a `'.'` with a non-whitespace character after it, `d > a + 1`, and
      only non-whitespace lies between the two. */
  ghost predicate EmailAt(s: string, a: int, d: int) {
    && 1 <= a && a + 1 < d && d + 1 < |s|
    && s[a] == '@' && !IsWhitespace(s[a - 1])
    && s[d] == '.' && SolidBetween(s, a, d)
    && !IsWhitespace(s[d + 1])
  }

  /** The unanchored test `/\S+@\S+\.\S+/` stated over positions. */
  ghost predicate EmailShape(s: string) {
    exists a, d :: EmailAt(s, a, d)
  }

  /** `s[a]` is an `'@'` with a non-whitespace character before it and a
      non-empty run of non-whitespace from `a + 1` up to `i`. */
  ghost predicate RunFrom(s: string, a: int, i: int) {
    && 1 <= a && a + 1 < i <= |s| && s[a] == '@' && !IsWhitespace(s[a - 1])
    && SolidBetween(s, a, i)
  }

  /** After reading `s[..i]` the pattern has matched `\S+@\S+`, ending at `i`. */
  ghost predicate AtRun(s: string, i: int) {
    exists a :: RunFrom(s, a, i)
  }

  /** `s[d]` is a `'.'` that ends a `\S+@\S+` match and is followed by a
      non-whitespace character before position `n`. */
  ghost predicate DotAt(s: string, d: int, n: int) {
    0 <= d && d + 1 < n <= |s| && s[d] == '.' && AtRun(s, d) && !IsWhitespace(s[d + 1])
  }

  /** The whole pattern has matched inside `s[..n]`. */
  ghost predicate MatchedWithin(s: string, n: int) {
    exists d :: DotAt(s, d, n)
  }

  /** `RegExp.prototype.test` for `/\S+@\S+\.\S+/`, as one left-to-right
      pass that keeps one flag per pattern state: inside the first `\S+`,
      just after `'@'`, inside the second `\S+`, just after `'.'`, and
      "matched somewhere". */
  method EmailTest(s: string) returns (found: bool)
    ensures found <==> EmailShape(s)
  {
    var inLocal, afterAt, inDomain, afterDot := false, false, false, false;
    found := false;
    var i := 0;
    while i < |s|
      invariant 0 <= i <= |s|
      invariant inLocal <==> i >= 1 && !IsWhitespace(s[i - 1])
      invariant afterAt <==> i >= 2 && s[i - 1] == '@' && !IsWhitespace(s[i - 2])
      invariant inDomain <==> AtRun(s, i)
      invariant afterDot <==> i >= 1 && s[i - 1] == '.' && AtRun(s, i - 1)
      invariant found <==> MatchedWithin(s, i)
    {
      var c := s[i];
      var solid := !IsWhitespace(c);
      AtRunStep(s, i);
      MatchedStep(s, i);
      found, afterDot, inDomain, afterAt, inLocal :=
        found || (solid && afterDot), c == '.' && inDomain,
        solid && (afterAt || inDomain), c == '@' && inLocal, solid;
      i := i + 1;
    }
    MatchedWithinIsShape(s);
  }

  lemma AtRunStep(s: string, i: int)
    requires 0 <= i < |s|
    ensures AtRun(s, i + 1) <==>
              !IsWhitespace(s[i])
              && ((i >= 2 && s[i - 1] == '@' && !IsWhitespace(s[i - 2])) || AtRun(s, i))
  {
    if AtRun(s, i + 1) {
      var a :| RunFrom(s, a, i + 1);
      assert !IsWhitespace(s[i]);
      if a + 1 < i {
        assert RunFrom(s, a, i);
      }
    }
    if !IsWhitespace(s[i]) && i >= 2 && s[i - 1] == '@' && !IsWhitespace(s[i - 2]) {
      assert RunFrom(s, i - 1, i + 1);
    }
    if !IsWhitespace(s[i]) && AtRun(s, i) {
      var a :| RunFrom(s, a, i);
      assert RunFrom(s, a, i + 1);
    }
  }

  lemma MatchedStep(s: string, i: int)
    requires 0 <= i < |s|
    ensures MatchedWithin(s, i + 1) <==>
              MatchedWithin(s, i)
              || (!IsWhitespace(s[i]) && i >= 1 && s[i - 1] == '.' && AtRun(s, i - 1))
  {
    if MatchedWithin(s, i + 1) {
      var d :| DotAt(s, d, i + 1);
      if d + 1 < i {
        assert DotAt(s, d, i);
      }
    }
    if MatchedWithin(s, i) {
      var d :| DotAt(s, d, i);
      assert DotAt(s, d, i + 1);
    }
    if !IsWhitespace(s[i]) && i >= 1 && s[i - 1] == '.' && AtRun(s, i - 1) {
      assert DotAt(s, i - 1, i + 1);
    }
  }

  lemma MatchedWithinIsShape(s: string)
    ensures MatchedWithin(s, |s|) <==> EmailShape(s)
  {
    if MatchedWithin(s, |s|) {
      var d :| DotAt(s, d, |s|);
      var a :| RunFrom(s, a, d);
      assert EmailAt(s, a, d);
    }
    if EmailShape(s) {
      var a, d :| EmailAt(s, a, d);
      assert RunFrom(s, a, d);
      assert DotAt(s, d, |s|);
    }
  }

  /** The message `validateForm` records for one field holding `v`, or
      `None` when that field passes. Each field is judged on its own value
      alone; the email field is blank-checked first and only a non-blank
      value is put to the pattern. */
  ghost function FieldError(f: Field, v: string): Option<string> {
    match f
    case FirstName => if IsBlank(v) then Some("First name is required") else None
    case LastName => if IsBlank(v) then Some("Last name is required") else None
    case Email =>
      if IsBlank(v) then Some("Email is required")
      else if !EmailShape(v) then Some("Email is invalid")
      else None
    case JobTitle => if IsBlank(v) then Some("Job title is required") else None
    case CompanyName => if IsBlank(v) then Some("Company name is required") else None
  }

  /** What the form demands before play: all five fields non-blank after
      trimming, and the email matching the pattern. */
  ghost predicate Accepted(form: Form) {
    && !IsBlank(form.firstName) && !IsBlank(form.lastName) && !IsBlank(form.email)
    && !IsBlank(form.jobTitle) && !IsBlank(form.companyName)
    && EmailShape(form.email)
  }

  /** `errs` holds exactly the message `validateForm` records for field `f`. */
  ghost predicate Reports(errs: map<Field, string>, form: Form, f: Field) {
    && (f in errs <==> FieldError(f, Get(form, f)).Some?)
    && (f in errs ==> errs[f] == FieldError(f, Get(form, f)).value)
  }

  /** `validateForm`: fills an initially empty error map with one entry per
      failing field, in field order. */
  method Validate(form: Form) returns (errs: map<Field, string>)
    ensures forall f :: f in errs <==> FieldError(f, Get(form, f)).Some?
    ensures forall f :: f in errs ==> errs[f] == FieldError(f, Get(form, f)).value
    ensures errs == map[] <==> Accepted(form)
  {
    errs := map[];
    if IsBlank(form.firstName) {
      errs := errs[FirstName := "First name is required"];
    }
    if IsBlank(form.lastName) {
      errs := errs[LastName := "Last name is required"];
    }
    var emailError := CheckEmail(form.email);
    if emailError.Some? {
      errs := errs[Email := emailError.value];
    }
    if IsBlank(form.jobTitle) {
      errs := errs[JobTitle := "Job title is required"];
    }
    if IsBlank(form.companyName) {
      errs := errs[CompanyName := "Company name is required"];
    }
    ReportsEveryField(errs, form);
  }

  /** The email branch of `validateForm`: a blank value is reported as
      missing without consulting the pattern; a non-blank one that fails
      it as invalid. */
  method CheckEmail(v: string) returns (msg: Option<string>)
    ensures msg == FieldError(Email, v)
  {
    if IsBlank(v) {
      msg := Some("Email is required");
    } else {
      var ok := EmailTest(v);
      msg := if ok then None else Some("Email is invalid");
    }
  }

  lemma ReportsEveryField(errs: map<Field, string>, form: Form)
    requires Reports(errs, form, FirstName) && Reports(errs, form, LastName)
    requires Reports(errs, form, Email) && Reports(errs, form, JobTitle)
    requires Reports(errs, form, CompanyName)
    ensures forall f :: f in errs <==> FieldError(f, Get(form, f)).Some?
    ensures forall f :: f in errs ==> errs[f] == FieldError(f, Get(form, f)).value
    ensures errs == map[] <==> Accepted(form)
  {
    forall f ensures Reports(errs, form, f) {
      match f
      case FirstName =>
      case LastName =>
      case Email =>
      case JobTitle =>
      case CompanyName =>
    }
    EmptyReportsIffAccepted(errs, form);
  }

  lemma EmptyReportsIffAccepted(errs: map<Field, string>, form: Form)
    requires forall f :: Reports(errs, form, f)
    ensures errs == map[] <==> Accepted(form)
  {
    AcceptedIffNoFieldError(form);
    if errs != map[] {
      var f :| f in errs;
      assert Reports(errs, form, f);
    } else {
      forall f ensures FieldError(f, Get(form, f)).None? {
        assert Reports(errs, form, f);
      }
    }
  }

  lemma AcceptedIffNoFieldError(form: Form)
    ensures Accepted(form) <==> forall f :: FieldError(f, Get(form, f)).None?
  {
    if Accepted(form) {
      forall f ensures FieldError(f, Get(form, f)).None? {
        match f
        case FirstName =>
        case LastName =>
        case Email =>
        case JobTitle =>
        case CompanyName =>
      }
    } else {
      if IsBlank(form.firstName) {
        assert FieldError(FirstName, Get(form, FirstName)).Some?;
      } else if IsBlank(form.lastName) {
        assert FieldError(LastName, Get(form, LastName)).Some?;
      } else if IsBlank(form.jobTitle) {
        assert FieldError(JobTitle, Get(form, JobTitle)).Some?;
      } else if IsBlank(form.companyName) {
        assert FieldError(CompanyName, Get(form, CompanyName)).Some?;
      } else {
        assert FieldError(Email, Get(form, Email)).Some?;
      }
    }
  }

  /** The state of the entry screen: the record being edited and the
      messages shown under the fields. */
  class FormScreen {
    var formData: Form
    var errors: map<Field, string>

    constructor ()
      ensures formData == EmptyForm && errors == map[]
    {
      formData := EmptyForm;
      errors := map[];
    }

    /** `handleChange`: typing into field `name`. */
    method HandleChange(name: Field, value: string)
      modifies this
      ensures formData == WithField(old(formData), name, value)
      ensures errors == ClearError(old(errors), name)
    {
      formData := WithField(formData, name, value);
      errors := ClearError(errors, name);
    }

    /** `handleSubmit`: returns the `userData` handed to the game screen when
      the form validates; otherwise stores the fresh messages, replacing the
      old ones, and returns `None` (no navigation). */
    method HandleSubmit() returns (userData: Option<Form>)
      modifies this
      ensures formData == old(formData)
      ensures userData.Some? <==> Accepted(formData)
      ensures userData.Some? ==> userData.value == formData && errors == old(errors)
      ensures userData.None? ==>
                && (forall f :: f in errors <==> FieldError(f, Get(formData, f)).Some?)
                && (forall f :: f in errors ==> errors[f] == FieldError(f, Get(formData, f)).value)
    {
      var newErrors := Validate(formData);
      if newErrors == map[] {
        userData := Some(Form(formData.firstName, formData.lastName, formData.email,
                              formData.jobTitle, formData.companyName));
      } else {
        errors := newErrors;
        userData := None;
      }
    }
  }
}
