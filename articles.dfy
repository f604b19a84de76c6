/** The Article record and the bean-validation constraints declared on its fields. */
module Articles {
  import opened Wrappers

  /** A point in time as milliseconds since the epoch (what `new Date(millis)` carries). */
  type Millis = int

  /** The article document. Every field of the Java class is a reference that may be
      null, so every field is an Option; equality is structural over all seven fields. */
  datatype Article = Article(
    articleId: Option<string>,
    header: Option<string>,
    shortDescription: Option<string>,
    text: Option<string>,
    publishDate: Option<Millis>,
    authors: Option<seq<string>>,
    keywords: Option<seq<string>>)

  /** Two articles are equal exactly when all seven fields are, the id included. */
  lemma StructuralEquality(a: Article, b: Article)
    ensures a == b <==>
      && a.articleId == b.articleId && a.header == b.header
      && a.shortDescription == b.shortDescription && a.text == b.text
      && a.publishDate == b.publishDate && a.authors == b.authors && a.keywords == b.keywords
  {
  }

  // ---------------------------------------------------------------------------
  // String.trim and @NotBlank

  /** The characters String.trim removes from either end: code points up to U+0020. */
  predicate IsTrimmable(c: char) {
    c <= ' '
  }

  /** Every character of `s` is one that trim removes. */
  predicate AllTrimmable(s: string) {
    forall i :: 0 <= i < |s| ==> IsTrimmable(s[i])
  }

  /** `s` without its leading trimmable characters. */
  function TrimStart(s: string): (r: string)
    ensures |r| <= |s| && r == s[|s| - |r|..]
    ensures forall i :: 0 <= i < |s| - |r| ==> IsTrimmable(s[i])
    ensures r != [] ==> !IsTrimmable(r[0])
  {
    if s != [] && IsTrimmable(s[0]) then TrimStart(s[1..]) else s
  }

  /** `s` without its trailing trimmable characters. */
  function TrimEnd(s: string): (r: string)
    ensures |r| <= |s| && r == s[..|r|]
    ensures forall i :: |r| <= i < |s| ==> IsTrimmable(s[i])
    ensures r != [] ==> !IsTrimmable(r[|r| - 1])
  {
    if s != [] && IsTrimmable(s[|s| - 1]) then TrimEnd(s[..|s| - 1]) else s
  }

  /** String.trim: both ends stripped. */
  function Trim(s: string): string {
    TrimEnd(TrimStart(s))
  }

  /** Trimming leaves nothing exactly when every character is trimmable. */
  lemma TrimEmptyIffAllTrimmable(s: string)
    ensures Trim(s) == [] <==> AllTrimmable(s)
  {
    var t := TrimStart(s);
    if t != [] {
      assert !IsTrimmable(t[0]) && t[0] == s[|s| - |t|];
    }
  }

  /** @NotBlank: not null, and trim leaves at least one character, which is to say
      (TrimEmptyIffAllTrimmable) some character lies above U+0020. */
  predicate NotBlank(s: Option<string>) {
    s.Some? && !AllTrimmable(s.value)
  }

  /** @NotEmpty on a list: not null and at least one element. */
  predicate NotEmpty<T>(xs: Option<seq<T>>) {
    xs.Some? && xs.value != []
  }

  // ---------------------------------------------------------------------------
  // The constrained fields

  /** The six constrained fields, in declaration order; articleId carries no constraint. */
  datatype Field = Header | ShortDescription | Text | PublishDate | Authors | Keywords

  /** The property path the validator reports for a field. */
  function FieldName(f: Field): string {
    match f
    case Header => "header"
    case ShortDescription => "shortDescription"
    case Text => "text"
    case PublishDate => "publishDate"
    case Authors => "authors"
    case Keywords => "keywords"
  }

  /** The constraint's message: the one given in the annotation, or the validator's
      default "must not be blank" for `text`, which names none. */
  function ConstraintMessage(f: Field): string {
    match f
    case Header => "The header must not be blank."
    case ShortDescription => "The short description must not be blank."
    case Text => "must not be blank"
    case PublishDate => "The publish date must be set."
    case Authors => "At least one author must be set."
    case Keywords => "At least one keyword must be set."
  }

  /** Whether article `a` meets the constraint declared on field `f`. */
  predicate Satisfies(a: Article, f: Field) {
    match f
    case Header => NotBlank(a.header)
    case ShortDescription => NotBlank(a.shortDescription)
    case Text => NotBlank(a.text)
    case PublishDate => a.publishDate.Some?
    case Authors => NotEmpty(a.authors)
    case Keywords => NotEmpty(a.keywords)
  }

  /** An article every one of whose constraints holds. */
  predicate Valid(a: Article) {
    forall f: Field :: Satisfies(a, f)
  }

  // ---------------------------------------------------------------------------
  // The validator

  /** `[f]` when the constraint on `f` fails, `[]` when it holds. */
  function Flag(a: Article, f: Field): seq<Field> {
    if Satisfies(a, f) then [] else [f]
  }

  /** The fields whose constraint fails, in declaration order. */
  function Violations(a: Article): seq<Field> {
    Flag(a, Header) + Flag(a, ShortDescription) + Flag(a, Text)
    + Flag(a, PublishDate) + Flag(a, Authors) + Flag(a, Keywords)
  }

  /** One violation as the validator renders it: "<field>: <message>". */
  function Describe(f: Field): string {
    FieldName(f) + ": " + ConstraintMessage(f)
  }

  /** Several violations rendered and joined by ", ". */
  function Render(vs: seq<Field>): string {
    if vs == [] then ""
    else if |vs| == 1 then Describe(vs[0])
    else Describe(vs[0]) + ", " + Render(vs[1..])
  }

  /** Bean validation of an article: passes exactly the valid articles, and fails
      the others with their violations rendered. */
  function Validate(a: Article): (r: Outcome<string>)
    ensures r == Pass <==> Valid(a)
  {
    var vs := Violations(a);
    ViolationsEmptyIffValid(a);
    if vs == [] then Pass else Fail(Render(vs))
  }

  /** A field's constraint fails exactly when the field is among the violations. */
  lemma ViolationsExact(a: Article, f: Field)
    ensures f in Violations(a) <==> !Satisfies(a, f)
  {
    assert forall g: Field :: f in Flag(a, g) <==> f == g && !Satisfies(a, g);
  }

  /** No constraint is reported exactly when every constraint holds. */
  lemma ViolationsEmptyIffValid(a: Article)
    ensures Violations(a) == [] <==> Valid(a)
  {
    if Violations(a) == [] {
      forall f: Field ensures Satisfies(a, f) {
        ViolationsExact(a, f);
      }
    } else {
      ViolationsExact(a, Violations(a)[0]);
    }
  }

  /** When exactly one constraint fails, the message is that field's alone. */
  lemma SingleViolation(a: Article, f: Field)
    requires !Satisfies(a, f)
    requires forall g: Field :: g != f ==> Satisfies(a, g)
    ensures Validate(a) == Fail(Describe(f))
  {
    var others := Flag(a, Header) + Flag(a, ShortDescription) + Flag(a, Text);
    var rest := Flag(a, PublishDate) + Flag(a, Authors) + Flag(a, Keywords);
    match f
    case Header =>
      assert others == [f] && rest == [];
    case ShortDescription =>
      assert others == [f] && rest == [];
    case Text =>
      assert others == [f] && rest == [];
    case PublishDate =>
      assert others == [] && rest == [f];
    case Authors =>
      assert others == [] && rest == [f];
    case Keywords =>
      assert others == [] && rest == [f];
    assert Violations(a) == [f];
  }

  /** The rendered message for the header, spelled out. */
  lemma HeaderMessageText()
    ensures Describe(Header) == "header: The header must not be blank."
  {
  }

  /** The rendered message for the authors, spelled out. */
  lemma AuthorsMessageText()
    ensures Describe(Authors) == "authors: At least one author must be set."
  {
  }

  /** An article whose header is missing or blank, and which is otherwise valid, is
      refused with exactly "header: The header must not be blank.". */
  lemma MissingHeaderRejected(a: Article)
    requires !NotBlank(a.header)
    requires NotBlank(a.shortDescription) && NotBlank(a.text) && a.publishDate.Some?
    requires NotEmpty(a.authors) && NotEmpty(a.keywords)
    ensures Validate(a) == Fail("header: The header must not be blank.")
  {
    forall g: Field | g != Header ensures Satisfies(a, g) {
    }
    SingleViolation(a, Header);
    HeaderMessageText();
  }

  /** An article without authors, and otherwise valid, is refused with exactly
      "authors: At least one author must be set.". */
  lemma MissingAuthorsRejected(a: Article)
    requires !NotEmpty(a.authors)
    requires NotBlank(a.header) && NotBlank(a.shortDescription) && NotBlank(a.text)
    requires a.publishDate.Some? && NotEmpty(a.keywords)
    ensures Validate(a) == Fail("authors: At least one author must be set.")
  {
    forall g: Field | g != Authors ensures Satisfies(a, g) {
    }
    SingleViolation(a, Authors);
    AuthorsMessageText();
  }

  /** An article whose text trims to nothing (empty, or only spaces, tabs, line breaks
      and other control characters) is refused, with the text among its violations. */
  lemma WhitespaceIsBlank(a: Article, s: string)
    requires a.text == Some(s) && Trim(s) == []
    ensures Text in Violations(a)
    ensures Validate(a).Fail?
  {
    TrimEmptyIffAllTrimmable(s);
    ViolationsExact(a, Text);
  }

  /** The id carries no constraint: validation does not depend on it. */
  lemma ValidationIgnoresId(a: Article, id: Option<string>)
    ensures Valid(a.(articleId := id)) <==> Valid(a)
    ensures Validate(a.(articleId := id)) == Validate(a)
  {
    assert forall f: Field :: Satisfies(a.(articleId := id), f) == Satisfies(a, f);
  }
}
