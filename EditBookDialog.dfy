/** The edit-book dialog (src/components/Book/EditBookDialog.tsx): the form is
    rebuilt from the book whenever the book changes, and the update payload
    takes the physical-copy flag, and through it the quantity, from the book. */
module EditBookDialog {
  import opened Types
  import opened Api
  import opened Text

  /** The dialog's form. A category that `parseInt` could not read is `None`;
      the quantity is shown but not edited here. */
  datatype EditForm = EditForm(
    title: string, author: string, description: string, categoryId: Option<int>,
    ebook: string, quantity: int)

  /** `value || ""` on an optional string. */
  function OrEmpty(o: Option<string>): (s: string)
    ensures Truthy(o) ==> s == o.value
    ensures !Truthy(o) ==> s == ""
  {
    if o.Some? then o.value else ""
  }

  /** The form the book-change effect builds. */
  function FormFromBook(b: Book): (f: EditForm)
    ensures f.title == b.title && f.author == b.author && f.categoryId == b.categoryId
    ensures f.description == OrEmpty(b.description) && f.ebook == OrEmpty(b.ebook)
    ensures b.quantity.Some? ==> f.quantity == b.quantity.value
    ensures b.quantity.None? ==> f.quantity == 0
  {
    EditForm(b.title, b.author, OrEmpty(b.description), b.categoryId, OrEmpty(b.ebook),
             if b.quantity.Some? then b.quantity.value else 0)
  }

  /** `!!book.ebook`. */
  predicate HasEbook(b: Book) {
    Truthy(b.ebook)
  }

  /** The PDF checkbox: unchecking clears the URL, checking keeps it. */
  function ToggleEbook(f: EditForm, checked: bool): (r: EditForm)
    ensures checked ==> r == f
    ensures !checked ==> r == f.(ebook := "")
  {
    f.(ebook := if checked then f.ebook else "")
  }

  /** Choosing a category: `parseInt` of the chosen value. */
  function SelectCategory(f: EditForm, value: string): (r: EditForm)
    ensures r.categoryId == ParseInt(value)
    ensures r == f.(categoryId := r.categoryId)
  {
    f.(categoryId := ParseInt(value))
  }

  /** What `updateBook` receives. */
  datatype UpdatePayload = UpdatePayload(
    title: string, author: string, description: string, categoryId: Option<int>,
    ebook: string, hasPhysical: int, quantity: int)

  /** The payload: the form's text fields and category, the book's physical
      flag, and the form's quantity only for a book flagged 1. */
  function PayloadOf(f: EditForm, b: Book): (p: UpdatePayload)
    ensures p.title == f.title && p.author == f.author && p.description == f.description
    ensures p.categoryId == f.categoryId && p.ebook == f.ebook
    ensures p.hasPhysical == b.hasPhysical
    ensures p.quantity == if b.hasPhysical == 1 then f.quantity else 0
  {
    UpdatePayload(f.title, f.author, f.description, f.categoryId, f.ebook, b.hasPhysical,
                  if b.hasPhysical == 1 then f.quantity else 0)
  }

  /** No edit of the form can change the physical flag, and for a book not
      flagged 1 not the quantity either. */
  lemma PhysicalFromBookOnly(f: EditForm, g: EditForm, b: Book)
    ensures PayloadOf(f, b).hasPhysical == PayloadOf(g, b).hasPhysical
    ensures b.hasPhysical != 1 ==> PayloadOf(f, b).quantity == PayloadOf(g, b).quantity == 0
  {
  }

  /** Saving an untouched form writes the book back as it was, with a missing
      description or PDF URL written as "" and, for a book without a physical
      copy, quantity 0. */
  lemma UntouchedFormWritesBookBack(b: Book)
    ensures var p := PayloadOf(FormFromBook(b), b);
            && p.title == b.title && p.author == b.author && p.categoryId == b.categoryId
            && p.description == OrEmpty(b.description) && p.ebook == OrEmpty(b.ebook)
            && p.hasPhysical == b.hasPhysical
            && p.quantity == (if b.hasPhysical == 1 && b.quantity.Some? then b.quantity.value else 0)
  {
  }

  /** The rebuilt form and the checkbox agree: the box is ticked exactly when
      the form holds a PDF URL, and unticking it then leaves none. */
  lemma CheckboxMatchesForm(b: Book)
    ensures HasEbook(b) <==> FormFromBook(b).ebook != ""
    ensures ToggleEbook(FormFromBook(b), false).ebook == ""
    ensures ToggleEbook(FormFromBook(b), true) == FormFromBook(b)
  {
  }

  class Dialog {
    var isOpen: bool
    var book: Book
    var form: EditForm
    var hasEbook: bool
    var isSubmitting: bool

    /** Mounting with a book: the form as the book-change effect builds it. */
    constructor (isOpen: bool, book: Book)
      ensures this.isOpen == isOpen && this.book == book
      ensures form == FormFromBook(book) && hasEbook == HasEbook(book) && !isSubmitting
    {
      this.isOpen := isOpen;
      this.book := book;
      form := FormFromBook(book);
      hasEbook := Truthy(book.ebook);
      isSubmitting := false;
    }

    /** The effect on `[book]`: a new book rebuilds the form and the checkbox. */
    method SetBook(b: Book)
      modifies this
      ensures book == b && form == FormFromBook(b) && hasEbook == HasEbook(b)
      ensures isOpen == old(isOpen) && isSubmitting == old(isSubmitting)
    {
      book := b;
      form := FormFromBook(b);
      hasEbook := Truthy(b.ebook);
    }

    /** The PDF checkbox. */
    method OnEbookChecked(checked: bool)
      modifies this
      ensures hasEbook == checked && form == ToggleEbook(old(form), checked)
      ensures book == old(book) && isOpen == old(isOpen) && isSubmitting == old(isSubmitting)
    {
      hasEbook := checked;
      if !checked {
        form := form.(ebook := "");
      }
    }

    /** `handleSubmit`: the payload is sent for the book's id; a reply with
      data closes the dialog (and the caller's refresh runs); submitting is
      over either way. */
    method HandleSubmit(reply: Reply) returns (id: int, payload: UpdatePayload, succeeded: bool)
      modifies this
      ensures id == book.id && payload == PayloadOf(form, book)
      ensures succeeded <==> reply == Answered(true)
      ensures succeeded ==> !isOpen
      ensures !succeeded ==> isOpen == old(isOpen)
      ensures !isSubmitting
      ensures book == old(book) && form == old(form) && hasEbook == old(hasEbook)
    {
      isSubmitting := true;
      id := book.id;
      payload := UpdatePayload(form.title, form.author, form.description, form.categoryId, form.ebook,
                               book.hasPhysical, if book.hasPhysical == 1 then form.quantity else 0);
      succeeded := reply == Answered(true);
      if succeeded {
        isOpen := false;
      }
      isSubmitting := false;
    }
  }
}
