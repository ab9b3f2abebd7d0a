/** The rule all three routes use to name an uploaded image: outside
    production the file is stored as `<timestamp>-<name>` under `/uploads/`,
    with every whitespace run of the name turned into `_`; in production
    nothing is written and a fixed placeholder path is recorded. */
module Upload {
  import opened Common
  import opened Text

  const UploadsPrefix: string := "/uploads/"
  const Placeholder: string := "/uploads/demo-placeholder.jpg"

  /** The stored file name: the upload time in milliseconds, a dash, then
      the client's file name with its whitespace runs replaced. */
  function StoredFileName(stamp: nat, name: string): (r: string)
    ensures NoWhitespace(r)
  {
    assert !IsWhitespace('-');
    var d := Decimal(stamp);
    var n := CollapseWhitespace(name);
    CollapseRemovesWhitespace(name);
    assert forall i :: 0 <= i < |d| ==> !IsWhitespace(d[i]) by {
      forall i | 0 <= i < |d| ensures !IsWhitespace(d[i]) { DigitIsNotWhitespace(d[i]); }
    }
    var r := d + "-" + n;
    assert forall i :: 0 <= i < |r| ==> r[i] == (if i < |d| then d[i] else if i == |d| then '-' else n[i - |d| - 1]);
    r
  }

  /** The path recorded for a stored upload: `/uploads/<file name>`. */
  function UploadUrl(stamp: nat, name: string): (r: string)
    ensures |r| > |UploadsPrefix| && r[..|UploadsPrefix|] == UploadsPrefix
    ensures NoWhitespace(r)
  {
    var f := StoredFileName(stamp, name);
    var r := UploadsPrefix + f;
    assert NoWhitespace(UploadsPrefix);
    assert forall i :: 0 <= i < |r| ==> r[i] == (if i < |UploadsPrefix| then UploadsPrefix[i] else f[i - |UploadsPrefix|]);
    r
  }

  /** Reads a stored upload path back into its timestamp and file name;
      `None` for anything not of the form `/uploads/<digits>-<rest>`. */
  function ParseUploadUrl(url: string): Option<(nat, string)> {
    if |url| < |UploadsPrefix| || url[..|UploadsPrefix|] != UploadsPrefix then None
    else
      var rest := url[|UploadsPrefix|..];
      var k := DigitSpan(rest);
      if k == 0 || k == |rest| || rest[k] != '-' then None
      else Some((DigitsValue(rest[..k]), rest[k + 1..]))
  }

  /** A stored path gives back the time it was stored at and the file name
      with whitespace replaced: two uploads at different times or with
      different normalised names never share a path. */
  lemma UploadUrlRoundTrip(stamp: nat, name: string)
    ensures ParseUploadUrl(UploadUrl(stamp, name)) == Some((stamp, CollapseWhitespace(name)))
  {
    var d := Decimal(stamp);
    var n := CollapseWhitespace(name);
    var url := UploadUrl(stamp, name);
    assert url[..|UploadsPrefix|] == UploadsPrefix;
    var rest := url[|UploadsPrefix|..];
    assert rest == d + ("-" + n);
    DigitSpanAppend(d, "-" + n);
    DecimalValue(stamp);
    assert rest[|d|] == '-' && rest[|d| + 1..] == n;
  }

  /** The placeholder is not of the stored-upload form. */
  lemma PlaceholderIsNotUpload()
    ensures ParseUploadUrl(Placeholder) == None
  {
    var rest := Placeholder[|UploadsPrefix|..];
    assert rest[0] == 'd';
  }

  /** So no stored upload path is ever the placeholder. */
  lemma UploadUrlIsNotPlaceholder(stamp: nat, name: string)
    ensures UploadUrl(stamp, name) != Placeholder
  {
    UploadUrlRoundTrip(stamp, name);
    PlaceholderIsNotUpload();
  }

  /** The URL recorded for an optional uploaded image: `None` when no image
      with a name was sent, the placeholder in production, otherwise the
      path of the stored file. */
  function ImageUrl(image: Option<string>, stamp: nat, production: bool): (r: Option<string>)
    ensures r.Some? <==> Present(image)
    ensures Present(image) && production ==> r == Some(Placeholder)
    ensures Present(image) && !production ==>
      r.value == UploadsPrefix + Decimal(stamp) + "-" + CollapseWhitespace(image.value)
    ensures Present(image) && !production ==>
      ParseUploadUrl(r.value) == Some((stamp, CollapseWhitespace(image.value)))
  {
    if !Present(image) then None
    else if production then Some(Placeholder)
    else
      UploadUrlRoundTrip(stamp, image.value);
      Some(UploadUrl(stamp, image.value))
  }
}
