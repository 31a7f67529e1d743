/** How an attachment is previewed (components/FilePreview.tsx): four kind
    predicates over its mime type and name, the icon and background chosen
    from them by priority, and the subtype label. */
module FilePreview {
  import opened Optional
  import opened Types
  import JsString
  import Gemini

  /** The mime type starts with `image/`. */
  predicate IsImage(f: Attachment) {
    JsString.StartsWith(f.mimeType, "image/")
  }

  /** The mime type is exactly `application/pdf`. */
  predicate IsPdf(f: Attachment) {
    f.mimeType == "application/pdf"
  }

  /** A spreadsheet by mime type, or by a case-sensitive name extension. */
  predicate IsExcel(f: Attachment) {
    JsString.Includes(f.mimeType, "spreadsheet") || JsString.Includes(f.mimeType, "excel")
    || JsString.EndsWith(f.name, ".xls") || JsString.EndsWith(f.name, ".xlsx")
    || JsString.EndsWith(f.name, ".csv")
  }

  /** A drawing, by the lower-cased name's extension. */
  predicate IsDwg(f: Attachment) {
    var lower := JsString.ToLower(f.name);
    JsString.EndsWith(lower, ".dwg") || JsString.EndsWith(lower, ".dxf")
  }

  datatype Icon = ImageIcon | PdfIcon | SpreadsheetIcon | RulerIcon | GenericIcon

  /** The card backgrounds: red, green, amber and the neutral default. */
  datatype Tone = PdfTone | SpreadsheetTone | DrawingTone | DefaultTone

  /** `getIcon`: a compact image, then pdf, then spreadsheet, then drawing,
      then the generic file icon. */
  function GetIcon(f: Attachment, compact: bool): Icon {
    if IsImage(f) && compact then ImageIcon
    else if IsPdf(f) then PdfIcon
    else if IsExcel(f) then SpreadsheetIcon
    else if IsDwg(f) then RulerIcon
    else GenericIcon
  }

  /** `getBgColor`: pdf, then spreadsheet, then drawing, then the default. */
  function Background(f: Attachment): Tone {
    if IsPdf(f) then PdfTone
    else if IsExcel(f) then SpreadsheetTone
    else if IsDwg(f) then DrawingTone
    else DefaultTone
  }

  /** `type.split('/')[1] || 'FILE'`. */
  function SubtypeLabel(mimeType: string): (shown: string)
    ensures shown != []
  {
    match JsString.Field(mimeType, '/', 1)
    case Some(sub) => if sub != [] then sub else "FILE"
    case None => "FILE"
  }

  /** What is drawn: a picture of the data, or a card with icon, background,
      name and subtype; either offers a remove button when one is handed in. */
  datatype Preview =
    | Thumbnail(src: string, alt: string, removable: bool)
    | Card(icon: Icon, tone: Tone, title: string, subtype: string, removable: bool)

  /** The full thumbnail exactly for an image shown at normal size. */
  function Render(f: Attachment, compact: bool, removable: bool): (p: Preview)
    ensures p.Thumbnail? <==> IsImage(f) && !compact
    ensures p.removable == removable
  {
    if IsImage(f) && !compact then Thumbnail(f.data, f.name, removable)
    else Card(GetIcon(f, compact), Background(f), f.name, SubtypeLabel(f.mimeType), removable)
  }

  /** The background that goes with an icon. */
  function ToneOf(i: Icon): Tone {
    match i
    case ImageIcon => DefaultTone
    case PdfIcon => PdfTone
    case SpreadsheetIcon => SpreadsheetTone
    case RulerIcon => DrawingTone
    case GenericIcon => DefaultTone
  }

  /** Apart from the image case the two priority chains agree: the icon of a
      card always matches its background. */
  lemma IconMatchesBackground(f: Attachment, compact: bool)
    requires !(IsImage(f) && compact)
    ensures ToneOf(GetIcon(f, compact)) == Background(f)
  {
  }

  /** `application/pdf` does not start with `image/`. */
  lemma PdfIsNotImage(f: Attachment)
    requires IsPdf(f)
    ensures !IsImage(f)
  {
    assert f.mimeType[0] == 'a';
  }

  /** A pdf gets the red pdf card at every size. */
  lemma PdfPreview(f: Attachment, compact: bool, removable: bool)
    requires IsPdf(f)
    ensures Render(f, compact, removable) == Card(PdfIcon, PdfTone, f.name, "pdf", removable)
  {
    PdfIsNotImage(f);
    JsString.FieldAfterSeparator("application", "pdf", '/');
    assert f.mimeType == "application" + ['/'] + "pdf";
  }

  /** An image is always shown as a picture: a thumbnail, or the image icon
      when compact. */
  lemma ImagePreview(f: Attachment, compact: bool, removable: bool)
    requires IsImage(f)
    ensures var p := Render(f, compact, removable);
            p.Thumbnail? || (p.Card? && p.icon == ImageIcon)
  {
  }

  /** The subtype of `major/minor` is `minor`; a type without a slash, or
      with nothing after it, is labelled `FILE`. */
  lemma SubtypeOf(major: string, minor: string)
    requires '/' !in major && '/' !in minor
    ensures SubtypeLabel(major + "/" + minor) == if minor == [] then "FILE" else minor
    ensures SubtypeLabel(major) == "FILE"
  {
    JsString.FieldAfterSeparator(major, minor, '/');
    JsString.FieldWithoutSeparator(major, '/');
  }

  /** The spreadsheet extension test is case-sensitive, the drawing one is not. */
  lemma ExtensionCase()
    ensures !IsExcel(Attachment(None, "PLANTA.XLS", "", "", None))
    ensures IsDwg(Attachment(None, "PLANTA.DWG", "", "", None))
  {
    var upper := "PLANTA.XLS";
    assert upper[|upper| - 4..] == ".XLS";
    assert upper[|upper| - 5..][0] == 'A';
    var lower := JsString.ToLower("PLANTA.DWG");
    assert lower[|lower| - 4..] == ".dwg";
  }

  /** Whatever the preview shows as a pdf or an image also makes the request
      go to the vision model. */
  lemma PreviewedDocumentsPickVision(a: Attachment)
    requires IsPdf(a) || IsImage(a)
    ensures Gemini.IsDocument(a)
    ensures Gemini.SelectModel([a]) == Vision
  {
    if IsPdf(a) {
      assert a.mimeType[12..15] == "pdf";
      assert JsString.OccursAt(a.mimeType, "pdf", 12);
    } else {
      assert a.mimeType[0..5] == "image";
      assert JsString.OccursAt(a.mimeType, "image", 0);
    }
    assert [a][0] == a;
  }
}
