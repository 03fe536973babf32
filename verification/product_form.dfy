/** The product editor of the admin panel: validating the form and turning it
    into the multipart request, loading a product into the form for editing,
    resetting it, and phrasing a failed save for the user. */
module ProductForm {
  import opened Wrappers
  import Strings
  import Sequences

  const BackendUrl := "https://threespacebackend.onrender.com"
  const ApiUrl := "https://threespacebackend.onrender.com/api/products"

  /** The largest image, in bytes, the form lets through (5 MiB). */
  const MaxImageBytes := 5 * 1024 * 1024

  datatype ImageFile = ImageFile(name: string, size: nat)

  /** `formData.image`: none, the path of the product's stored image (put there
      when editing), or a file the user picked. */
  datatype Image = NoImage | ExistingImage(path: string) | NewImage(file: ImageFile)

  /** The form fields; `price` and `oldPrice` hold the text typed in. */
  datatype Form = Form(
    name: string,
    description: string,
    price: string,
    oldPrice: string,
    isNew: bool,
    tags: string,
    image: Image,
    imagePreview: string)

  /** The form together with the id of the product being edited, if any. */
  datatype Editor = Editor(form: Form, editingId: Option<string>)

  /** A product as the list shows it and `handleEdit` reads it. Missing
      optional fields are `None`; numbers appear as their text. */
  datatype ListedProduct = ListedProduct(
    id: string,
    name: string,
    description: string,
    price: string,
    oldPrice: Option<string>,
    isNew: Option<bool>,
    tags: Option<seq<string>>,
    imagePath: Option<string>)

  /** The number `parseFloat(text)` yields; its value is not computed. */
  datatype Float = ParseFloatOf(text: string)

  /** The fields `handleSubmit` appends to the multipart body. */
  datatype Payload = Payload(
    name: string,
    description: string,
    price: Float,
    oldPrice: Option<Float>,
    isNew: string,
    tags: Option<seq<string>>,
    image: Option<ImageFile>)

  datatype Request = Request(verb: string, url: string, payload: Payload)

  const RequiredFieldsMessage := "Please fill in all required fields: Name, Description, and Price"
  const InvalidPriceMessage := "Price must be a valid number"
  const ImageTooLargeMessage := "Image size should be less than 5MB"

  /** `!isNaN(parseFloat(text))`: after leading whitespace and an optional
      sign, the text starts with a digit, a point followed by a digit, or
      "Infinity". */
  predicate ParsesAsNumber(text: string) {
    var t := Strings.TrimStart(text);
    var u := if |t| > 0 && (t[0] == '+' || t[0] == '-') then t[1..] else t;
    || (|u| > 0 && Strings.IsDigit(u[0]))
    || (|u| > 1 && u[0] == '.' && Strings.IsDigit(u[1]))
    || (|u| >= 8 && u[..8] == "Infinity")
  }

  /** `xs.filter(x => x)` for strings: the non-empty ones, in order. */
  function DropEmpty(xs: seq<string>): (r: seq<string>)
    ensures forall k :: 0 <= k < |r| ==> r[k] != ""
    ensures multiset(r) == multiset(xs)[[] := 0]
    ensures (forall k :: 0 <= k < |xs| ==> xs[k] != "") ==> r == xs
    ensures |r| <= |xs|
    ensures forall x :: x in r ==> x in xs
  {
    if |xs| == 0 then []
    else
      var rest := DropEmpty(xs[1..]);
      assert xs == [xs[0]] + xs[1..];
      if xs[0] == "" then rest else [xs[0]] + rest
  }

  /** The kept strings stay in their original order. */
  lemma {:induction false} DropEmptyKeepsOrder(xs: seq<string>)
    ensures Sequences.IsSubsequence(DropEmpty(xs), xs)
    decreases |xs|
  {
    if |xs| > 0 {
      var rest := DropEmpty(xs[1..]);
      DropEmptyKeepsOrder(xs[1..]);
      if xs[0] == "" {
        Sequences.SubsequenceDropHead(rest, xs);
      } else {
        assert ([xs[0]] + rest)[1..] == rest;
      }
    }
  }

  /** `tags.split(',').map(tag => tag.trim()).filter(tag => tag)`. */
  function ParseTagInput(text: string): (r: seq<string>)
    ensures forall k :: 0 <= k < |r| ==> r[k] != "" && Strings.IsTrimmed(r[k]) && ',' !in r[k]
    ensures |r| <= multiset(text)[','] + 1
  {
    var pieces := Strings.SplitTrim(text, ',');
    DropEmptyKeepsTags(pieces);
    DropEmpty(pieces)
  }

  lemma DropEmptyKeepsTags(pieces: seq<string>)
    requires forall k :: 0 <= k < |pieces| ==> Strings.IsTrimmed(pieces[k]) && ',' !in pieces[k]
    ensures forall k :: 0 <= k < |DropEmpty(pieces)| ==>
      Strings.IsTrimmed(DropEmpty(pieces)[k]) && ',' !in DropEmpty(pieces)[k]
  {
    var r := DropEmpty(pieces);
    forall k | 0 <= k < |r| ensures Strings.IsTrimmed(r[k]) && ',' !in r[k] {
      assert r[k] in pieces;
    }
  }

  /** The parsed tags are the comma-separated fields, trimmed, with the
      empty ones dropped, in their order. */
  lemma ParseTagFields(fields: seq<string>)
    requires |fields| >= 1
    requires forall k :: 0 <= k < |fields| ==> ',' !in fields[k]
    ensures ParseTagInput(Strings.Join(fields, ",")) == DropEmpty(Strings.TrimAll(fields))
  {
    assert [','] == ",";
    Strings.SplitTrimFields(fields, ',');
  }

  /** `editingId` is truthy: set, and not the empty string. */
  predicate IsEditing(e: Editor) {
    e.editingId.Some? && e.editingId.value != ""
  }

  /** `handleSubmit` up to the `fetch`: the validation error it throws, or the
      request it sends. */
  function Submit(e: Editor): (r: Result<Request>)
    ensures r == Err(RequiredFieldsMessage) <==>
      e.form.name == "" || e.form.description == "" || e.form.price == ""
    ensures r == Err(InvalidPriceMessage) <==>
      e.form.name != "" && e.form.description != "" && e.form.price != "" && !ParsesAsNumber(e.form.price)
    ensures r == Err(ImageTooLargeMessage) <==>
      && e.form.name != "" && e.form.description != "" && ParsesAsNumber(e.form.price)
      && e.form.image.NewImage? && e.form.image.file.size > MaxImageBytes
    ensures r.Err? ==> r.message in {RequiredFieldsMessage, InvalidPriceMessage, ImageTooLargeMessage}
    ensures r.Ok? ==>
      var p := r.value.payload;
      && p.name == Strings.Trim(e.form.name)
      && p.description == Strings.Trim(e.form.description)
      && p.price == ParseFloatOf(e.form.price)
      && (p.oldPrice.Some? <==> e.form.oldPrice != "" && ParsesAsNumber(e.form.oldPrice))
      && (p.oldPrice.Some? ==> p.oldPrice.value == ParseFloatOf(e.form.oldPrice))
      && (p.isNew == "true" || p.isNew == "false")
      && (p.isNew == "true" <==> e.form.isNew)
      && (p.tags.Some? <==> e.form.tags != "")
      && (p.tags.Some? ==> p.tags.value == ParseTagInput(e.form.tags))
      && (p.image.Some? <==> e.form.image.NewImage?)
      && (p.image.Some? ==> p.image.value == e.form.image.file && p.image.value.size <= MaxImageBytes)
    ensures r.Ok? ==>
      && (r.value.verb == "PUT" <==> IsEditing(e))
      && (r.value.verb == "POST" <==> !IsEditing(e))
      && (IsEditing(e) ==> r.value.url == ApiUrl + "/" + e.editingId.value)
      && (!IsEditing(e) ==> r.value.url == ApiUrl)
  {
    var f := e.form;
    if f.name == "" || f.description == "" || f.price == "" then Err(RequiredFieldsMessage)
    else if !ParsesAsNumber(f.price) then Err(InvalidPriceMessage)
    else
      var oldPrice := if f.oldPrice != "" && ParsesAsNumber(f.oldPrice) then Some(ParseFloatOf(f.oldPrice)) else None;
      var tags := if f.tags != "" then Some(ParseTagInput(f.tags)) else None;
      if f.image.NewImage? && f.image.file.size > MaxImageBytes then Err(ImageTooLargeMessage)
      else
        var image := if f.image.NewImage? then Some(f.image.file) else None;
        var payload := Payload(
          Strings.Trim(f.name), Strings.Trim(f.description), ParseFloatOf(f.price), oldPrice,
          if f.isNew then "true" else "false", tags, image);
        if IsEditing(e) then Ok(Request("PUT", ApiUrl + "/" + e.editingId.value, payload))
        else Ok(Request("POST", ApiUrl, payload))
  }

  /** `handleEdit`: load a listed product into the form for a PUT. A falsy
      old price (absent, or the number 0) leaves that field empty. */
  function HandleEdit(p: ListedProduct): (r: Editor)
    ensures r.editingId == Some(p.id)
    ensures r.form.name == p.name && r.form.description == p.description && r.form.price == p.price
    ensures r.form.oldPrice == "" <==> p.oldPrice.None? || p.oldPrice.value in {"", "0"}
    ensures r.form.oldPrice != "" ==> r.form.oldPrice == p.oldPrice.value
    ensures r.form.isNew <==> p.isNew == Some(true)
    ensures p.tags.None? ==> r.form.tags == ""
    ensures p.tags.Some? ==> r.form.tags == Strings.Join(p.tags.value, ", ")
    ensures !r.form.image.NewImage?
    ensures r.form.image.ExistingImage? <==> p.imagePath.Some? && p.imagePath.value != ""
    ensures r.form.image.ExistingImage? ==>
      r.form.image.path == p.imagePath.value && r.form.imagePreview == BackendUrl + "/" + p.imagePath.value
    ensures !r.form.image.ExistingImage? ==> r.form.imagePreview == ""
  {
    var image := if p.imagePath.Some? && p.imagePath.value != "" then ExistingImage(p.imagePath.value) else NoImage;
    var preview := if image.ExistingImage? then BackendUrl + "/" + image.path else "";
    Editor(
      Form(
        p.name, p.description, p.price,
        if p.oldPrice.Some? && p.oldPrice.value != "0" then p.oldPrice.value else "",
        p.isNew == Some(true),
        if p.tags.Some? then Strings.Join(p.tags.value, ", ") else "",
        image, preview),
      Some(p.id))
  }

  /** `resetForm`: every field empty and no product being edited. */
  function ResetForm(): (r: Editor)
    ensures r.editingId.None?
    ensures r.form.name == "" && r.form.description == "" && r.form.price == ""
    ensures r.form.oldPrice == "" && r.form.tags == "" && !r.form.isNew
    ensures r.form.image.NoImage? && r.form.imagePreview == ""
  {
    Editor(Form("", "", "", "", false, "", NoImage, ""), None)
  }

  /** Submitting a freshly reset form is refused before any request is built. */
  lemma ResetFormIsRejected()
    ensures Submit(ResetForm()) == Err(RequiredFieldsMessage)
  {
  }

  /** Editing then saving a product with a name, a description and a numeric
      price is accepted and sends back the tags it had, provided each
      tag is non-empty, trimmed and comma-free; an empty tag list renders as
      an empty field and is not sent at all. Whatever else happens, the save
      is a PUT to the product's own URL (a POST to the collection when that id is
      empty, since `editingId` is then falsy) and never re-uploads its image. */
  lemma EditThenSubmit(p: ListedProduct)
    requires p.name != "" && p.description != "" && ParsesAsNumber(p.price)
    requires p.tags.Some? ==> forall k :: 0 <= k < |p.tags.value| ==>
      p.tags.value[k] != "" && Strings.IsTrimmed(p.tags.value[k]) && ',' !in p.tags.value[k]
    ensures Submit(HandleEdit(p)).Ok?
    ensures Submit(HandleEdit(p)).value.payload.tags ==
      if p.tags.None? || |p.tags.value| == 0 then None else Some(p.tags.value)
    ensures p.id != "" ==> Submit(HandleEdit(p)).value.verb == "PUT" && Submit(HandleEdit(p)).value.url == ApiUrl + "/" + p.id
    ensures p.id == "" ==> Submit(HandleEdit(p)).value.verb == "POST" && Submit(HandleEdit(p)).value.url == ApiUrl
    ensures Submit(HandleEdit(p)).value.payload.image.None?
  {
    if p.tags.Some? && |p.tags.value| > 0 {
      TagsRoundTrip(p.tags.value);
    }
  }

  /** Tags rendered with `join(', ')` parse back to themselves. */
  lemma TagsRoundTrip(tags: seq<string>)
    requires |tags| > 0
    requires forall k :: 0 <= k < |tags| ==> tags[k] != "" && Strings.IsTrimmed(tags[k]) && ',' !in tags[k]
    ensures Strings.Join(tags, ", ") != ""
    ensures ParseTagInput(Strings.Join(tags, ", ")) == tags
  {
    var text := Strings.Join(tags, ", ");
    assert !Strings.IsWhitespace(',') && Strings.AllWhitespace(" ");
    assert [','] + " " == ", ";
    Strings.SplitTrimRoundTrip(tags, ',', " ");
    assert ParseTagInput(text) == DropEmpty(tags);
  }

  /** The required-field check looks at the untrimmed text: a name of spaces
      alone passes it, and with a description, a numeric price and no new
      image the form is sent with the empty string as its name. */
  lemma BlankNameIsSentEmpty(e: Editor)
    requires e.form.name != "" && Strings.AllWhitespace(e.form.name)
    requires e.form.description != "" && ParsesAsNumber(e.form.price)
    requires !e.form.image.NewImage?
    ensures Submit(e).Ok? && Submit(e).value.payload.name == ""
  {
    Strings.TrimEmptyIffBlank(e.form.name);
  }

  const ErrorPrefix := "Error saving product. "
  const ConnectionText := "Unable to connect to the server. Please check your internet connection."
  const ServerErrorText := "Server error. Please try again later or contact support if the problem persists."
  const ConsoleText := "Please check the console for details."

  /** The message shown when saving fails with `message`: a network failure
      and a server failure each get a fixed text, anything else is shown as is. */
  function UserErrorMessage(message: string): (r: string)
    ensures |r| > |ErrorPrefix| && r[..|ErrorPrefix|] == ErrorPrefix
    ensures Strings.Contains(message, "Failed to fetch") ==> r[|ErrorPrefix|..] == ConnectionText
    ensures !Strings.Contains(message, "Failed to fetch") && Strings.Contains(message, "500") ==>
      r[|ErrorPrefix|..] == ServerErrorText
    ensures !Strings.Contains(message, "Failed to fetch") && !Strings.Contains(message, "500") ==>
      r[|ErrorPrefix|..] == if message == "" then ConsoleText else message
  {
    var detail :=
      if Strings.Contains(message, "Failed to fetch") then ConnectionText
      else if Strings.Contains(message, "500") then ServerErrorText
      else if message == "" then ConsoleText
      else message;
    assert (ErrorPrefix + detail)[|ErrorPrefix|..] == detail;
    ErrorPrefix + detail
  }

  /** Any message mentioning "Failed to fetch" anywhere is reported as a
      connection problem, and any other mentioning "500" as a server error. */
  lemma ErrorMessageClassifies(before: string, after: string)
    ensures UserErrorMessage(before + "Failed to fetch" + after) == ErrorPrefix + ConnectionText
    ensures !Strings.Contains(before + "500" + after, "Failed to fetch") ==>
      UserErrorMessage(before + "500" + after) == ErrorPrefix + ServerErrorText
  {
    var m1 := before + "Failed to fetch" + after;
    assert m1[|before|..|before| + 15] == "Failed to fetch";
    assert Strings.OccursAt(m1, "Failed to fetch", |before|);
    var m2 := before + "500" + after;
    assert m2[|before|..|before| + 3] == "500";
    assert Strings.OccursAt(m2, "500", |before|);
    var r1 := UserErrorMessage(m1);
    assert r1 == r1[..|ErrorPrefix|] + r1[|ErrorPrefix|..];
    var r2 := UserErrorMessage(m2);
    assert r2 == r2[..|ErrorPrefix|] + r2[|ErrorPrefix|..];
  }
}
