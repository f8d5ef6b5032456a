/** The "Add New Book" dialog (src/components/Book/CreateBookDialog.tsx): its form,
    the two validity checkers, the per-field error record, the checkbox toggles
    and the create payload. */
module CreateBookDialog {
  import opened Types
  import opened Api
  import opened Text

  /** The keys of the form, which are also the keys of the error record. */
  datatype Field = Title | Author | Description | CategoryId | Ebook | HasPhysical | Quantity

  datatype BookForm = BookForm(
    title: string, author: string, description: string, categoryId: int,
    ebook: string, hasPhysical: int, quantity: int)

  /** The form the dialog opens with and returns to when it closes. */
  const EmptyForm := BookForm("", "", "", 0, "", 0, 0)

  /** A value held by one field of the form. */
  datatype FieldValue = Str(s: string) | Num(n: int)

  function Get(form: BookForm, f: Field): FieldValue {
    match f
    case Title => Str(form.title)
    case Author => Str(form.author)
    case Description => Str(form.description)
    case CategoryId => Num(form.categoryId)
    case Ebook => Str(form.ebook)
    case HasPhysical => Num(form.hasPhysical)
    case Quantity => Num(form.quantity)
  }

  /** One call `handleFieldChange(field, value)`, with a value of the field's type. */
  datatype FieldChange =
    | SetTitle(title: string) | SetAuthor(author: string) | SetDescription(description: string)
    | SetCategoryId(categoryId: int) | SetEbook(ebook: string) | SetQuantity(quantity: int)

  function FieldOf(c: FieldChange): Field {
    match c
    case SetTitle(_) => Title
    case SetAuthor(_) => Author
    case SetDescription(_) => Description
    case SetCategoryId(_) => CategoryId
    case SetEbook(_) => Ebook
    case SetQuantity(_) => Quantity
  }

  function ValueOf(c: FieldChange): FieldValue {
    match c
    case SetTitle(v) => Str(v)
    case SetAuthor(v) => Str(v)
    case SetDescription(v) => Str(v)
    case SetCategoryId(v) => Num(v)
    case SetEbook(v) => Str(v)
    case SetQuantity(v) => Num(v)
  }

  /** `{ ...form, [field]: value }`: the changed field takes the new value and
      every other field keeps its old one. */
  function Apply(form: BookForm, c: FieldChange): (r: BookForm)
    ensures Get(r, FieldOf(c)) == ValueOf(c)
    ensures forall f :: f != FieldOf(c) ==> Get(r, f) == Get(form, f)
  {
    match c
    case SetTitle(v) => form.(title := v)
    case SetAuthor(v) => form.(author := v)
    case SetDescription(v) => form.(description := v)
    case SetCategoryId(v) => form.(categoryId := v)
    case SetEbook(v) => form.(ebook := v)
    case SetQuantity(v) => form.(quantity := v)
  }

  // ---------------------------------------------------------------------
  // The URL pattern /^https?:\/\/[^\s$.?#].[^\s]*$/

  /** `[^\s$.?#]`: neither white space nor one of `$ . ? #`. */
  predicate HostStart(c: char) {
    !IsWhitespace(c) && c != '$' && c != '.' && c != '?' && c != '#'
  }

  /** What follows the scheme, as JavaScript matches it: the pattern has no
      `u` flag, so it runs over UTF-16 code units. A character outside the
      Basic Multilingual Plane is two units, so on its own it fills both
      `[^\s$.?#]` and the `.` after it. Otherwise the first character must be a
      `HostStart` one, and the second any character but a line terminator.
      Everything after that must be free of white space, to the end. */
  predicate UrlRest(r: string) {
    && |r| >= 1
    && HostStart(r[0])
    && if IsAstral(r[0]) then NoWhitespace(r[1..])
       else |r| >= 2 && !IsLineTerminator(r[1]) && NoWhitespace(r[2..])
  }

  /** `[^\s$.?#]` on one code unit; a surrogate half is none of these. */
  predicate HostStartUnit(u: int) {
    !IsBmpScalar(u) || HostStart(u as char)
  }

  /** `[^\s$.?#].[^\s]*$` read literally over code units. */
  predicate UnitRest(u: seq<int>) {
    && |u| >= 2
    && HostStartUnit(u[0])
    && !IsLineTerminatorUnit(u[1])
    && NoWhitespaceUnit(u[2..])
  }

  /** Dropping one code unit that is not white space keeps a run free of white space. */
  lemma NoWhitespaceUnitCons(x: int, u: seq<int>)
    requires !IsWhitespaceUnit(x)
    ensures NoWhitespaceUnit([x] + u) <==> NoWhitespaceUnit(u)
  {
    if NoWhitespaceUnit([x] + u) {
      forall k | 0 <= k < |u| ensures !IsWhitespaceUnit(u[k]) {
        assert ([x] + u)[k + 1] == u[k];
      }
    }
  }

  /** A leading character outside the Basic Multilingual Plane: its two code
      units fill `[^\s$.?#]` and `.`, and the rest is the `[^\s]*` run. */
  lemma AstralHeadOnCodeUnits(r: string)
    requires |r| >= 1 && IsAstral(r[0])
    ensures UrlRest(r) <==> UnitRest(CodeUnits(r))
  {
    var u := CodeUnits(r);
    assert u == Utf16(r[0]) + CodeUnits(r[1..]);
    assert HostStart(r[0]);
    assert u[2..] == CodeUnits(r[1..]);
    NoWhitespaceUnits(r[1..]);
  }

  /** A single BMP character: one code unit, too short for the pattern. */
  lemma BmpOnlyOnCodeUnits(r: string)
    requires |r| == 1 && !IsAstral(r[0])
    ensures !UrlRest(r) && !UnitRest(CodeUnits(r))
  {
    assert CodeUnits(r) == Utf16(r[0]) + CodeUnits(r[1..]);
    assert r[1..] == [];
  }

  /** A leading BMP character followed by one outside the plane: the second
      character's high surrogate fills `.` and its low one starts the run. */
  lemma BmpAstralOnCodeUnits(r: string)
    requires |r| >= 2 && !IsAstral(r[0]) && IsAstral(r[1])
    ensures UrlRest(r) <==> UnitRest(CodeUnits(r))
  {
    var c, d, tail := r[0], r[1], r[2..];
    assert r[1..][0] == d && r[1..][1..] == tail;
    assert CodeUnits(r[1..]) == Utf16(d) + CodeUnits(tail);
    var u := CodeUnits(r);
    assert u == [c as int] + (Utf16(d) + CodeUnits(tail));
    assert (c as int) as char == c;
    assert !IsLineTerminator(d);
    assert u[0] == c as int && u[1] == Utf16(d)[0];
    assert u[2..] == [Utf16(d)[1]] + CodeUnits(tail);
    NoWhitespaceUnits(tail);
    NoWhitespaceUnitCons(Utf16(d)[1], CodeUnits(tail));
  }

  /** Two leading BMP characters: one code unit each. */
  lemma BmpBmpOnCodeUnits(r: string)
    requires |r| >= 2 && !IsAstral(r[0]) && !IsAstral(r[1])
    ensures UrlRest(r) <==> UnitRest(CodeUnits(r))
  {
    var c, d, tail := r[0], r[1], r[2..];
    assert r[1..][0] == d && r[1..][1..] == tail;
    assert CodeUnits(r[1..]) == [d as int] + CodeUnits(tail);
    var u := CodeUnits(r);
    assert u == [c as int] + ([d as int] + CodeUnits(tail));
    assert (c as int) as char == c && (d as int) as char == d;
    assert u[0] == c as int && u[1] == d as int;
    assert u[2..] == CodeUnits(tail);
    NoWhitespaceUnits(tail);
  }

  /** The character-level rule agrees with the pattern run over the string's
      UTF-16 code units, which is how JavaScript runs it. */
  lemma UrlRestOnCodeUnits(r: string)
    ensures UrlRest(r) <==> UnitRest(CodeUnits(r))
  {
    if r == [] {
    } else if IsAstral(r[0]) {
      AstralHeadOnCodeUnits(r);
    } else if |r| == 1 {
      BmpOnlyOnCodeUnits(r);
    } else if IsAstral(r[1]) {
      BmpAstralOnCodeUnits(r);
    } else {
      BmpBmpOnCodeUnits(r);
    }
  }

  /** A character outside the Basic Multilingual Plane alone after the scheme
      is a URL on the pattern: its two code units fill `[^\s$.?#]` and `.`. */
  lemma AstralHostMatches()
    ensures MatchesUrlPattern("http://\U{1F600}")
  {
    var s := "http://\U{1F600}";
    assert s[..7] == "http://" && s[7..] == ['\U{1F600}'];
  }

  /** White space after such a character falls into `[^\s]*`, so it is not a URL. */
  lemma AstralThenSpaceFails()
    ensures !MatchesUrlPattern("http://\U{1F600} x")
  {
    var s := "http://\U{1F600} x";
    assert s[7..][1..][0] == ' ';
    assert s[..8] != "https://" by { assert s[4] != 's'; }
  }

  /** The whole string matches the pattern (no flags: `^` and `$` anchor to the
      whole input). The scheme is ASCII, one code unit per character, so the
      rest is matched over its own code units. */
  predicate MatchesUrlPattern(s: string)
    ensures MatchesUrlPattern(s) <==>
              || (|s| >= 7 && s[..7] == "http://" && UnitRest(CodeUnits(s[7..])))
              || (|s| >= 8 && s[..8] == "https://" && UnitRest(CodeUnits(s[8..])))
  {
    UrlRestOnCodeUnits(if |s| >= 7 then s[7..] else []);
    UrlRestOnCodeUnits(if |s| >= 8 then s[8..] else []);
    || (|s| >= 7 && s[..7] == "http://" && UrlRest(s[7..]))
    || (|s| >= 8 && s[..8] == "https://" && UrlRest(s[8..]))
  }

  /** A string that matches the pattern is not blank. */
  lemma UrlNotBlank(s: string)
    requires MatchesUrlPattern(s)
    ensures !IsBlank(s)
  {
    if |s| >= 7 && s[..7] == "http://" {
      assert s[..7][0] == 'h';
    } else {
      assert s[..8][0] == 'h';
    }
  }

  // ---------------------------------------------------------------------
  // Validation

  /** The messages `validateForm` can record. */
  datatype ErrorMessage =
    | TitleRequired | AuthorRequired | DescriptionRequired | CategoryRequired
    | EbookRequired | EbookInvalid | QuantityNegative

  /** The text shown under the field; none is empty, so every recorded error is truthy. */
  function MessageText(m: ErrorMessage): (t: string)
    ensures t != ""
  {
    match m
    case TitleRequired => "Title is required"
    case AuthorRequired => "Author is required"
    case DescriptionRequired => "Description is required"
    case CategoryRequired => "Please select a category"
    case EbookRequired => "PDF URL is required when PDF version is selected"
    case EbookInvalid => "Please enter a valid URL"
    case QuantityNegative => "Quantity cannot be negative"
  }

  /** The field each message is shown under. */
  function FieldOfMessage(m: ErrorMessage): Field {
    match m
    case TitleRequired => Title
    case AuthorRequired => Author
    case DescriptionRequired => Description
    case CategoryRequired => CategoryId
    case EbookRequired => Ebook
    case EbookInvalid => Ebook
    case QuantityNegative => Quantity
  }

  /** The message `validateForm` records for field `f`, if any. A text field
      fails when `!value.trim()`, that is when it is blank (`TrimEmptyIffBlank`). */
  function ErrorFor(form: BookForm, hasEbook: bool, f: Field): (r: Option<ErrorMessage>)
    ensures r.Some? ==> FieldOfMessage(r.value) == f
    ensures f == HasPhysical ==> r.None?
    ensures f == Ebook && !hasEbook ==> r.None?
  {
    match f
    case Title => if IsBlank(form.title) then Some(TitleRequired) else None
    case Author => if IsBlank(form.author) then Some(AuthorRequired) else None
    case Description => if IsBlank(form.description) then Some(DescriptionRequired) else None
    case CategoryId => if form.categoryId <= 0 then Some(CategoryRequired) else None
    case Ebook =>
      if hasEbook && IsBlank(form.ebook) then Some(EbookRequired)
      else if hasEbook && !MatchesUrlPattern(form.ebook) then Some(EbookInvalid)
      else None
    case HasPhysical => None
    case Quantity => if form.hasPhysical == 1 && form.quantity < 0 then Some(QuantityNegative) else None
  }

  /** `isFormValid`: the expression that enables the Create button (a trimmed
      string is truthy exactly when the string is not blank). */
  predicate IsFormValid(form: BookForm, hasEbook: bool)
    ensures IsFormValid(form, hasEbook) && hasEbook ==> form.ebook != "" && MatchesUrlPattern(form.ebook)
    ensures IsFormValid(form, hasEbook) && PayloadOf(form).quantity.Some? ==> PayloadOf(form).quantity.value >= 0
  {
    && !IsBlank(form.title)
    && !IsBlank(form.author)
    && !IsBlank(form.description)
    && form.categoryId > 0
    && (!hasEbook || (!IsBlank(form.ebook) && MatchesUrlPattern(form.ebook)))
    && (form.hasPhysical != 1 || form.quantity >= 0)
  }

  /** The two checkers agree: the button is enabled exactly when `validateForm`
      would record no error at all. */
  lemma FormValidIffNoError(form: BookForm, hasEbook: bool)
    ensures IsFormValid(form, hasEbook) <==> forall f :: ErrorFor(form, hasEbook, f).None?
  {
    if IsFormValid(form, hasEbook) {
      forall f ensures ErrorFor(form, hasEbook, f).None? {
        match f
        case Title =>
        case Author =>
        case Description =>
        case CategoryId =>
        case Ebook =>
        case HasPhysical =>
        case Quantity =>
      }
    } else {
      if IsBlank(form.title) { assert ErrorFor(form, hasEbook, Title).Some?; }
      else if IsBlank(form.author) { assert ErrorFor(form, hasEbook, Author).Some?; }
      else if IsBlank(form.description) { assert ErrorFor(form, hasEbook, Description).Some?; }
      else if form.categoryId <= 0 { assert ErrorFor(form, hasEbook, CategoryId).Some?; }
      else if hasEbook && !(!IsBlank(form.ebook) && MatchesUrlPattern(form.ebook)) {
        assert ErrorFor(form, hasEbook, Ebook).Some?;
      } else {
        assert ErrorFor(form, hasEbook, Quantity).Some?;
      }
    }
  }

  /** A title, author or description that trims to the empty string (white
      space only) is an error on that field, and only such a value is. */
  lemma BlankTextIsError(form: BookForm, hasEbook: bool)
    ensures ErrorFor(form, hasEbook, Title).Some? <==> Trim(form.title) == ""
    ensures ErrorFor(form, hasEbook, Author).Some? <==> Trim(form.author) == ""
    ensures ErrorFor(form, hasEbook, Description).Some? <==> Trim(form.description) == ""
  {
    TrimEmptyIffBlank(form.title);
    TrimEmptyIffBlank(form.author);
    TrimEmptyIffBlank(form.description);
  }

  /** The PDF field: a blank URL gets the "required" message and is not checked
      against the pattern; otherwise a URL off the pattern gets the "valid URL"
      message; without the PDF option the field never errs. */
  lemma EbookErrorCases(form: BookForm, hasEbook: bool)
    ensures ErrorFor(form, hasEbook, Ebook) == Some(EbookRequired) <==> hasEbook && Trim(form.ebook) == ""
    ensures ErrorFor(form, hasEbook, Ebook) == Some(EbookInvalid) <==>
              hasEbook && Trim(form.ebook) != "" && !MatchesUrlPattern(form.ebook)
    ensures ErrorFor(form, hasEbook, Ebook).None? <==> !hasEbook || MatchesUrlPattern(form.ebook)
  {
    TrimEmptyIffBlank(form.ebook);
    if MatchesUrlPattern(form.ebook) {
      UrlNotBlank(form.ebook);
    }
  }

  /** The request body `createBook` receives. */
  datatype CreatePayload = CreatePayload(
    title: string, author: string, description: string, categoryId: int,
    ebook: string, hasPhysical: int, quantity: Option<int>)

  /** The payload built from the form: every field copied, `has_physical` from
      the form, and `quantity` present only for a physical book. */
  function PayloadOf(form: BookForm): (p: CreatePayload)
    ensures p.quantity.Some? <==> form.hasPhysical == 1
    ensures p.quantity.Some? ==> p.quantity.value == form.quantity
    ensures (p.title, p.author, p.description, p.categoryId, p.ebook, p.hasPhysical)
         == (form.title, form.author, form.description, form.categoryId, form.ebook, form.hasPhysical)
  {
    CreatePayload(form.title, form.author, form.description, form.categoryId, form.ebook,
                  form.hasPhysical, if form.hasPhysical == 1 then Some(form.quantity) else None)
  }

  /** The body of `validateForm`: a fresh record filled field by field, one
      message per failing check (`!s.trim()` is `IsBlank(s)`, `TrimEmptyIffBlank`). */
  method CollectErrors(form: BookForm, hasEbook: bool) returns (newErrors: map<Field, ErrorMessage>)
    ensures forall f :: f in newErrors <==> ErrorFor(form, hasEbook, f).Some?
    ensures forall f :: f in newErrors ==> newErrors[f] == ErrorFor(form, hasEbook, f).value
  {
    newErrors := map[];
    if IsBlank(form.title) {
      newErrors := newErrors[Title := TitleRequired];
    }
    if IsBlank(form.author) {
      newErrors := newErrors[Author := AuthorRequired];
    }
    if IsBlank(form.description) {
      newErrors := newErrors[Description := DescriptionRequired];
    }
    if form.categoryId <= 0 {
      newErrors := newErrors[CategoryId := CategoryRequired];
    }
    if hasEbook && IsBlank(form.ebook) {
      newErrors := newErrors[Ebook := EbookRequired];
    } else if hasEbook && !MatchesUrlPattern(form.ebook) {
      newErrors := newErrors[Ebook := EbookInvalid];
    }
    if form.hasPhysical == 1 && form.quantity < 0 {
      newErrors := newErrors[Quantity := QuantityNegative];
    }
    forall f
      ensures f in newErrors <==> ErrorFor(form, hasEbook, f).Some?
      ensures f in newErrors ==> newErrors[f] == ErrorFor(form, hasEbook, f).value
    {
      match f
      case Title =>
      case Author =>
      case Description =>
      case CategoryId =>
      case Ebook =>
      case HasPhysical =>
      case Quantity =>
    }
  }

  class Dialog {
    var isOpen: bool
    var form: BookForm
    var hasEbook: bool
    var isSubmitting: bool
    var errors: map<Field, ErrorMessage>

    /** The dialog as first mounted, closed or open. */
    constructor (isOpen: bool)
      ensures this.isOpen == isOpen && form == EmptyForm && !hasEbook && !isSubmitting && errors == map[]
    {
      this.isOpen := isOpen;
      form := EmptyForm;
      hasEbook := false;
      isSubmitting := false;
      errors := map[];
    }

    /** The record of errors is the one `validateForm` computes for the current form. */
    predicate ErrorsMatchForm()
      reads this
    {
      forall f :: (f in errors <==> ErrorFor(form, hasEbook, f).Some?)
                  && (f in errors ==> errors[f] == ErrorFor(form, hasEbook, f).value)
    }

    /** Closing the dialog; the effect on `isOpen` then empties the form, unticks
        the PDF option and clears every error. */
    method Close()
      modifies this
      ensures !isOpen && form == EmptyForm && !hasEbook && errors == map[]
      ensures isSubmitting == old(isSubmitting)
    {
      isOpen := false;
      form := EmptyForm;
      hasEbook := false;
      errors := map[];
    }

    /** `validateForm`: records one message per failing field and reports
        whether none was recorded. */
    method ValidateForm() returns (valid: bool)
      modifies this
      ensures ErrorsMatchForm()
      ensures valid <==> errors == map[]
      ensures valid <==> IsFormValid(form, hasEbook)
      ensures form == old(form) && hasEbook == old(hasEbook)
      ensures isOpen == old(isOpen) && isSubmitting == old(isSubmitting)
    {
      var newErrors := CollectErrors(form, hasEbook);
      errors := newErrors;
      valid := |newErrors| == 0;
      FormValidIffNoError(form, hasEbook);
      if !valid {
        var f :| f in errors;
        assert ErrorFor(form, hasEbook, f).Some?;
      }
    }

    /** `handleFieldChange`: sets one field and drops that field's error (a
        recorded message is never empty, so the truthiness test is membership);
        no other field or error changes. */
    method HandleFieldChange(c: FieldChange)
      modifies this
      ensures form == Apply(old(form), c)
      ensures errors == old(errors) - {FieldOf(c)}
      ensures hasEbook == old(hasEbook) && isOpen == old(isOpen) && isSubmitting == old(isSubmitting)
    {
      form := Apply(form, c);
      var f := FieldOf(c);
      if f in errors && MessageText(errors[f]) != "" {
        errors := errors - {f};
      }
    }

    /** The "PDF version" checkbox: ticking keeps the URL typed so far,
        unticking clears it; either way the URL error is dropped. */
    method ToggleEbook(checked: bool)
      modifies this
      ensures hasEbook == checked
      ensures form == old(form).(ebook := if checked then old(form).ebook else "")
      ensures errors == old(errors) - {Ebook}
      ensures isOpen == old(isOpen) && isSubmitting == old(isSubmitting)
    {
      hasEbook := checked;
      HandleFieldChange(SetEbook(if checked then form.ebook else ""));
    }

    /** The "Physical copy" checkbox: `hasPhysical` becomes 1 or 0; unticking
        resets the quantity to 0 and drops the quantity error. */
    method TogglePhysical(checked: bool)
      modifies this
      ensures form == old(form).(hasPhysical := if checked then 1 else 0,
                                 quantity := if checked then old(form).quantity else 0)
      ensures errors == if checked then old(errors) else old(errors) - {Quantity}
      ensures hasEbook == old(hasEbook) && isOpen == old(isOpen) && isSubmitting == old(isSubmitting)
    {
      form := form.(hasPhysical := if checked then 1 else 0, quantity := if checked then form.quantity else 0);
      if Quantity in errors && MessageText(errors[Quantity]) != "" && !checked {
        errors := errors - {Quantity};
      }
    }

    /** `handleSubmit`. An invalid form stops before any request (`sent` is
        `None`); a valid one sends `PayloadOf(form)`. A reply with `data` closes
        the dialog and reports success; anything else keeps the dialog as it
        was. The submitting flag ends false either way. */
    method HandleSubmit(reply: Reply) returns (sent: Option<CreatePayload>, created: bool)
      modifies this
      ensures sent.Some? <==> IsFormValid(old(form), old(hasEbook))
      ensures sent.Some? ==> sent.value == PayloadOf(old(form))
      ensures created <==> sent.Some? && reply == Answered(true)
      ensures created ==> !isOpen && form == EmptyForm && !hasEbook && errors == map[]
      ensures !created ==> isOpen == old(isOpen) && form == old(form) && hasEbook == old(hasEbook)
      ensures !created ==> forall f :: (f in errors <==> ErrorFor(form, hasEbook, f).Some?)
      ensures sent.Some? ==> !isSubmitting
      ensures sent.None? ==> isSubmitting == old(isSubmitting)
    {
      var valid := ValidateForm();
      if !valid {
        return None, false;
      }
      isSubmitting := true;
      sent := Some(PayloadOf(form));
      created := reply == Answered(true);
      if created {
        Close();
      }
      isSubmitting := false;
    }
  }
}
