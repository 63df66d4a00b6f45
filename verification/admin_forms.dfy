/** The two admin forms. The category form checks the name with the form
    library's rules in its order (required, then length, then pattern) and
    shows the first failing rule. The article form checks six fields,
    accepts an avatar only in portrait and a cover image only in landscape
    orientation, and assembles the multipart body. Server answers arrive
    as events. */
module AdminForms {
  import opened Common

  // ---------------------------------------------------------------------
  // Category name
  // ---------------------------------------------------------------------

  datatype CategoryError = NameRequired | NameTooShort | NameTooLong | NameBadCharacter

  const MinCategoryLength := 3
  const MaxCategoryLength := 50

  /** The message shown under the input. */
  function CategoryMessage(e: CategoryError): String {
    match e
    case NameRequired => "Category name is required"
    case NameTooShort => "Category name must be at least 3 characters"
    case NameTooLong => "Category name must not exceed 50 characters"
    case NameBadCharacter => "Category name can only contain letters, numbers, spaces, and hyphens"
  }

  /** One character of the class `[a-zA-Z0-9\s-]`. */
  predicate NameChar(c: char) {
    ('a' <= c <= 'z') || ('A' <= c <= 'Z') || ('0' <= c <= '9') || IsWhite(c) || c == '-'
  }

  /** The pattern `^[a-zA-Z0-9\s-]+$`, scanned one character at a time. */
  function MatchesNamePattern(s: String): bool
    decreases |s|
  {
    if |s| == 0 then false
    else NameChar(s[0]) && (|s| == 1 || MatchesNamePattern(s[1..]))
  }

  /** The pattern matches exactly the non-empty strings of allowed
      characters. */
  lemma {:induction false} NamePatternIff(s: String)
    ensures MatchesNamePattern(s) <==> |s| > 0 && forall i :: 0 <= i < |s| ==> NameChar(s[i])
    decreases |s|
  {
    if |s| > 1 {
      NamePatternIff(s[1..]);
      assert forall i :: 1 <= i < |s| ==> s[i] == s[1..][i - 1];
    }
  }

  /** The first failing rule, if any. */
  function ValidateCategoryName(name: String): (r: Option<CategoryError>)
    ensures r == Some(NameRequired) <==> name == []
    ensures r == Some(NameTooShort) <==> 0 < |name| < MinCategoryLength
    ensures r == Some(NameTooLong) <==> |name| > MaxCategoryLength
  {
    if name == [] then Some(NameRequired)
    else if |name| > MaxCategoryLength then Some(NameTooLong)
    else if |name| < MinCategoryLength then Some(NameTooShort)
    else if !MatchesNamePattern(name) then Some(NameBadCharacter)
    else None
  }

  /** A name is accepted exactly when it has 3 to 50 characters, all of them
      letters, digits, whitespace or hyphens. */
  lemma {:induction false} CategoryNameAcceptedIff(name: String)
    ensures ValidateCategoryName(name).None? <==>
              && MinCategoryLength <= |name| <= MaxCategoryLength
              && forall i :: 0 <= i < |name| ==> NameChar(name[i])
    ensures ValidateCategoryName(name) == Some(NameBadCharacter) <==>
              && MinCategoryLength <= |name| <= MaxCategoryLength
              && exists i :: 0 <= i < |name| && !NameChar(name[i])
  {
    NamePatternIff(name);
  }

  /** "C++" is refused for its characters and "ab" for its length. */
  lemma {:induction false} CategoryNameExamples()
    ensures ValidateCategoryName("C++") == Some(NameBadCharacter)
    ensures ValidateCategoryName("ab") == Some(NameTooShort)
  {
    CategoryNameAcceptedIff("C++");
    assert !NameChar("C++"[1]);
  }

  /** The pattern's `\s` admits names made only of spaces: three or more
      of them pass every rule. */
  lemma {:induction false} BlankNameAccepted(name: String)
    requires MinCategoryLength <= |name| <= MaxCategoryLength
    requires forall i :: 0 <= i < |name| ==> name[i] == ' '
    ensures ValidateCategoryName(name).None?
  {
    CategoryNameAcceptedIff(name);
    assert forall i :: 0 <= i < |name| ==> NameChar(name[i]);
  }

  /** The category form: the input's value and whether a request is out. */
  datatype CategoryForm = CategoryForm(name: String, loading: bool)

  datatype Answer = Succeeded | Declined | Failed  // `success: true`, `success: false`, a thrown error

  /** Pressing submit sends the request only when the name is valid. While
      a request is out the input and the button are disabled, so nothing
      is sent. */
  function SubmitCategory(f: CategoryForm): (r: (CategoryForm, Option<String>))
    ensures r.1.Some? <==> !f.loading && ValidateCategoryName(f.name).None?
    ensures r.1.Some? ==> r.1.value == f.name && r.0 == f.(loading := true)
    ensures r.1.None? ==> r.0 == f
  {
    if f.loading then (f, None)
    else if ValidateCategoryName(f.name).None? then (f.(loading := true), Some(f.name))
    else (f, None)
  }

  /** The answer: only a success resets the input; the loading flag is
      cleared in every case. */
  function CategoryAnswered(f: CategoryForm, a: Answer): (r: CategoryForm)
    ensures !r.loading
    ensures r.name == (if a == Succeeded then [] else f.name)
  {
    if a == Succeeded then CategoryForm([], false) else f.(loading := false)
  }

  /** After a failed or declined submission the same name can be sent again
      unchanged; after a success the form holds an empty, invalid name. */
  lemma {:induction false} CategoryRetry(f: CategoryForm, a: Answer)
    requires !f.loading && ValidateCategoryName(f.name).None?
    ensures var g := CategoryAnswered(SubmitCategory(f).0, a);
            a != Succeeded ==> SubmitCategory(g).1 == Some(f.name)
    ensures a == Succeeded ==> ValidateCategoryName(CategoryAnswered(SubmitCategory(f).0, a).name) == Some(NameRequired)
  {
  }

  // ---------------------------------------------------------------------
  // Image orientation
  // ---------------------------------------------------------------------

  /** A chosen image file: its decoded size, or a failure to decode. */
  datatype ImageFile = ImageFile(name: String, width: nat, height: nat, decodes: bool)

  datatype Role = Avatar | Cover

  /** `width / height` as a double: a finite ratio, `Infinity` when only the
      height is 0, `NaN` when both are. */
  datatype Ratio = Finite(num: nat, den: nat) | Infinity | NaN

  function AspectRatio(width: nat, height: nat): (r: Ratio)
    ensures r.Finite? ==> r.den > 0
  {
    if height > 0 then Finite(width, height)
    else if width > 0 then Infinity
    else NaN
  }

  /** `ratio < 1` and `ratio > 1` with IEEE semantics: every comparison
      with NaN is false, and Infinity exceeds every finite number. */
  predicate LessThanOne(r: Ratio) {
    match r
    case Finite(n, d) => n < d
    case Infinity => false
    case NaN => false
  }

  predicate GreaterThanOne(r: Ratio) {
    match r
    case Finite(n, d) => n > d
    case Infinity => true
    case NaN => false
  }

  /** `validateImageDimensions`: an image that does not decode is refused;
      an avatar needs ratio < 1 and a cover needs ratio > 1. */
  function OrientationAccepted(role: Role, f: ImageFile): bool
  {
    if !f.decodes then false
    else
      var r := AspectRatio(f.width, f.height);
      match role
      case Avatar => LessThanOne(r)
      case Cover => GreaterThanOne(r)
  }

  /** The floating-point test is the integer comparison of the sides: an
      avatar must be taller than wide and a cover wider than tall, so a
      square is refused for both. */
  lemma {:induction false} OrientationIsSideComparison(role: Role, f: ImageFile)
    ensures OrientationAccepted(role, f) <==>
              f.decodes && (if role == Avatar then f.height > f.width else f.width > f.height)
    ensures f.width == f.height ==> !OrientationAccepted(role, f)
  {
  }

  // ---------------------------------------------------------------------
  // Article form
  // ---------------------------------------------------------------------

  /** One image input: the file the form holds, the preview shown and the
      error under the input. */
  datatype Slot = Slot(file: Option<ImageFile>, preview: Option<ImageFile>, error: Option<String>)

  const EmptySlot := Slot(None, None, None)

  /** The error set when a file is refused. */
  function RefusedMessage(role: Role): String {
    match role
    case Avatar => "Avatar must be vertical/portrait shape"
    case Cover => "Image must be horizontal/landscape shape"
  }

  /** `handleAvatarChange` / `handleImgChange`: a refused file sets the error
      and empties the input, keeping the preview; an accepted one clears the
      error and becomes the preview. */
  function ChooseFile(s: Slot, role: Role, f: ImageFile): (r: Slot)
    ensures OrientationAccepted(role, f) ==> r == Slot(Some(f), Some(f), None)
    ensures !OrientationAccepted(role, f) ==>
              r.file.None? && r.preview == s.preview && r.error == Some(RefusedMessage(role))
  {
    if OrientationAccepted(role, f) then Slot(Some(f), Some(f), None)
    else s.(file := None, error := Some(RefusedMessage(role)))
  }

  /** `removeAvatar` / `removeImg`. */
  function RemoveFile(s: Slot): (r: Slot)
    ensures r.file.None? && r.preview.None? && r.error.None?
  {
    EmptySlot
  }

  /** The form's values. */
  datatype ArticleForm = ArticleForm(
    category: String,
    title: String,
    description: String,
    code: String,
    avatar: Slot,
    img: Slot)

  const EmptyArticleForm := ArticleForm([], [], [], [], EmptySlot, EmptySlot)

  const MinTitleLength := 5
  const MinDescriptionLength := 20

  /** A text field's rules: required, then (when `min > 1`) a minimum
      length; the first failing one as a `(field, message)` pair. */
  function TextRule(field: String, value: String, min: nat, required: String, short: String): (errs: seq<(String, String)>)
    ensures |errs| <= 1
    ensures errs == [] <==> |value| >= min && value != []
  {
    if value == [] then [(field, required)]
    else if |value| < min then [(field, short)]
    else []
  }

  /** A file field's single rule. */
  function FileRule(field: String, file: Option<ImageFile>, required: String): (errs: seq<(String, String)>)
    ensures |errs| <= 1
    ensures errs == [] <==> file.Some?
  {
    if file.None? then [(field, required)] else []
  }

  /** The first failing rule of each field, in field order. */
  function ArticleErrors(f: ArticleForm): (errs: seq<(String, String)>)
  {
    TextRule("category", f.category, 0, "Category is required", [])
    + TextRule("title", f.title, MinTitleLength, "Title is required", "Title must be at least 5 characters")
    + TextRule("description", f.description, MinDescriptionLength, "Description is required",
               "Description must be at least 20 characters")
    + TextRule("code", f.code, 0, "Code is required", [])
    + FileRule("avatar", f.avatar.file, "Avatar is required")
    + FileRule("img", f.img.file, "Image is required")
  }

  /** The form submits exactly when the category and code are filled in,
      the title has at least 5 and the description at least 20 characters,
      and both images are present; each field reports at most one error. */
  lemma {:induction false} ArticleFormAcceptedIff(f: ArticleForm)
    ensures ArticleErrors(f) == [] <==>
              && f.category != [] && f.code != []
              && |f.title| >= MinTitleLength
              && |f.description| >= MinDescriptionLength
              && f.avatar.file.Some? && f.img.file.Some?
    ensures |ArticleErrors(f)| <= 6
  {
    var c := TextRule("category", f.category, 0, "Category is required", []);
    var t := TextRule("title", f.title, MinTitleLength, "Title is required", "Title must be at least 5 characters");
    var d := TextRule("description", f.description, MinDescriptionLength, "Description is required",
                      "Description must be at least 20 characters");
    var o := TextRule("code", f.code, 0, "Code is required", []);
    var a := FileRule("avatar", f.avatar.file, "Avatar is required");
    var i := FileRule("img", f.img.file, "Image is required");
    assert ArticleErrors(f) == c + t + d + o + a + i;
    assert |ArticleErrors(f)| == |c| + |t| + |d| + |o| + |a| + |i|;
  }

  /** A multipart form value. */
  datatype Part = Text(s: String) | File(f: ImageFile)

  /** `formData`: the four text fields, then each image that is present. */
  function FormData(f: ArticleForm): (entries: seq<(String, Part)>)
    ensures |entries| >= 4
  {
    TextEntries(f) + ImageEntries(f)
  }

  /** The first value under `key`, as the server's multipart parser would
      read it. */
  function Lookup(entries: seq<(String, Part)>, key: String): (r: Option<Part>)
    ensures r.Some? ==> exists k :: 0 <= k < |entries| && entries[k] == (key, r.value)
    ensures r.None? ==> forall k :: 0 <= k < |entries| ==> entries[k].0 != key
    decreases |entries|
  {
    if |entries| == 0 then None
    else if entries[0].0 == key then Some(entries[0].1)
    else
      var r := Lookup(entries[1..], key);
      assert forall k :: 1 <= k < |entries| ==> entries[k] == entries[1..][k - 1];
      r
  }

  /** Looking past a prefix: a key the prefix holds is found there, and a
      key it lacks is looked up in the rest. */
  lemma {:induction false} LookupAppend(a: seq<(String, Part)>, b: seq<(String, Part)>, key: String)
    ensures Lookup(a, key).Some? ==> Lookup(a + b, key) == Lookup(a, key)
    ensures Lookup(a, key).None? ==> Lookup(a + b, key) == Lookup(b, key)
    decreases |a|
  {
    if |a| == 0 {
      assert a + b == b;
    } else {
      assert (a + b)[0] == a[0];
      assert (a + b)[1..] == a[1..] + b;
      LookupAppend(a[1..], b, key);
    }
  }

  /** The four text entries, in the order the form appends them. */
  function TextEntries(f: ArticleForm): seq<(String, Part)> {
    [("category", Text(f.category)), ("title", Text(f.title)),
     ("description", Text(f.description)), ("code", Text(f.code))]
  }

  /** The image entries: each image that is present. */
  function ImageEntries(f: ArticleForm): seq<(String, Part)> {
    (if f.avatar.file.Some? then [("avatar", File(f.avatar.file.value))] else [])
    + (if f.img.file.Some? then [("img", File(f.img.file.value))] else [])
  }

  lemma {:induction false} TextEntriesLookup(f: ArticleForm)
    ensures Lookup(TextEntries(f), "category") == Some(Text(f.category))
    ensures Lookup(TextEntries(f), "title") == Some(Text(f.title))
    ensures Lookup(TextEntries(f), "description") == Some(Text(f.description))
    ensures Lookup(TextEntries(f), "code") == Some(Text(f.code))
    ensures Lookup(TextEntries(f), "avatar").None? && Lookup(TextEntries(f), "img").None?
  {
    var e := TextEntries(f);
    var e3 := [("code", Text(f.code))];
    var e2 := [("description", Text(f.description))] + e3;
    assert e[1..][1..] == e2;
    assert e2[1..] == e3;
    assert Lookup(e3, "code") == Some(Text(f.code));
    assert Lookup(e2, "code") == Some(Text(f.code));
    assert Lookup(e2, "description") == Some(Text(f.description));
  }

  lemma {:induction false} ImageEntriesLookup(f: ArticleForm)
    ensures Lookup(ImageEntries(f), "avatar") == (if f.avatar.file.Some? then Some(File(f.avatar.file.value)) else None)
    ensures Lookup(ImageEntries(f), "img") == (if f.img.file.Some? then Some(File(f.img.file.value)) else None)
  {
    var av: seq<(String, Part)> := if f.avatar.file.Some? then [("avatar", File(f.avatar.file.value))] else [];
    var im: seq<(String, Part)> := if f.img.file.Some? then [("img", File(f.img.file.value))] else [];
    assert ImageEntries(f) == av + im;
    LookupAppend(av, im, "avatar");
    LookupAppend(av, im, "img");
  }

  /** Reading the body back gives every text field and exactly the images
      the form holds. */
  lemma {:induction false} FormDataRoundTrip(f: ArticleForm)
    ensures Lookup(FormData(f), "category") == Some(Text(f.category))
    ensures Lookup(FormData(f), "title") == Some(Text(f.title))
    ensures Lookup(FormData(f), "description") == Some(Text(f.description))
    ensures Lookup(FormData(f), "code") == Some(Text(f.code))
    ensures Lookup(FormData(f), "avatar") == (if f.avatar.file.Some? then Some(File(f.avatar.file.value)) else None)
    ensures Lookup(FormData(f), "img") == (if f.img.file.Some? then Some(File(f.img.file.value)) else None)
  {
    var t, i := TextEntries(f), ImageEntries(f);
    assert FormData(f) == t + i;
    TextEntriesLookup(f);
    ImageEntriesLookup(f);
    LookupAppend(t, i, "category");
    LookupAppend(t, i, "title");
    LookupAppend(t, i, "description");
    LookupAppend(t, i, "code");
    LookupAppend(t, i, "avatar");
    LookupAppend(t, i, "img");
  }

  /** Pressing submit: the request body is built only when no field rule
      fails. */
  function SubmitArticle(f: ArticleForm): (r: Option<seq<(String, Part)>>)
    ensures r.Some? <==> ArticleErrors(f) == []
    ensures r.Some? ==> Lookup(r.value, "avatar").Some? && Lookup(r.value, "img").Some?
  {
    if ArticleErrors(f) == [] then
      FormDataRoundTrip(f);
      Some(FormData(f))
    else None
  }

  /** The submission's answer: success resets every field and both
      previews; anything else leaves the form as it was. */
  function ArticleAnswered(f: ArticleForm, a: Answer): (r: ArticleForm)
    ensures a == Succeeded ==> ArticleErrors(r) != [] && r.avatar.preview.None? && r.img.preview.None?
    ensures a != Succeeded ==> r == f
  {
    if a == Succeeded then EmptyArticleForm else f
  }

  /** A refused file never reaches the request: the slot ends up without a
      file, so the form cannot submit until an acceptable one is chosen.
      Removing the file returns the slot to its initial state whatever was
      chosen before. */
  lemma {:induction false} RefusedFileBlocksSubmit(f: ArticleForm, role: Role, file: ImageFile)
    requires !OrientationAccepted(role, file)
    ensures var g := if role == Avatar then f.(avatar := ChooseFile(f.avatar, role, file))
                     else f.(img := ChooseFile(f.img, role, file));
            ArticleErrors(g) != []
    ensures RemoveFile(ChooseFile(f.avatar, role, file)) == EmptySlot
  {
    var g := if role == Avatar then f.(avatar := ChooseFile(f.avatar, role, file))
             else f.(img := ChooseFile(f.img, role, file));
    ArticleFormAcceptedIff(g);
  }
}
