/**
 * The preview body the `POST /note` handler builds from an uploaded image:
 * a Markdown image reference to the stored file, appended to the description.
 */
module UploadBinder {
  import opened Wrappers
  import opened UriComponent

  /** The public path under which uploaded files are served. */
  const UploadsPath: string := "/uploads/"

  /** `/uploads/${encodeURIComponent(filename)}`. */
  function UploadLink(filename: string): (link: string)
    ensures |link| >= |UploadsPath| && link[..|UploadsPath|] == UploadsPath
  {
    UploadsPath + EncodeURIComponent(filename)
  }

  /** Nothing after the uploads path is a `/`. */
  lemma UploadLinkSingleSegment(filename: string)
    ensures forall i :: |UploadsPath| <= i < |UploadLink(filename)| ==> UploadLink(filename)[i] != '/'
  {
    var link, e := UploadLink(filename), EncodeURIComponent(filename);
    SlashAlwaysEscaped(filename);
    forall i | |UploadsPath| <= i < |link| ensures link[i] != '/' {
      assert link[i] == e[i - |UploadsPath|] && e[i - |UploadsPath|] in e;
    }
  }

  /**
   * The text after the uploads path is a dot segment (`.` or `..`) exactly when
   * the filename is that dot segment: `encodeURIComponent` keeps `.`, so these
   * two names give links to the uploads directory itself and to its parent.
   */
  lemma UploadLinkDotSegments(filename: string)
    ensures var segment := UploadLink(filename)[|UploadsPath|..];
      && (segment == "." <==> filename == ".")
      && (segment == ".." <==> filename == "..")
  {
    var segment := UploadLink(filename)[|UploadsPath|..];
    assert segment == EncodeURIComponent(filename);
    EncodeUnreservedUnchanged(".");
    EncodeUnreservedUnchanged("..");
    if segment == "." {
      EncodeInjective(filename, ".");
    }
    if segment == ".." {
      EncodeInjective(filename, "..");
    }
  }

  /** The stored filename can be decoded back from the link. */
  lemma UploadLinkDecodes(filename: string)
    ensures DecodeURIComponent(UploadLink(filename)[|UploadsPath|..]) == Some(filename)
  {
    assert UploadLink(filename)[|UploadsPath|..] == EncodeURIComponent(filename);
    DecodeEncode(filename);
  }

  /** Where the link starts inside the preview content. */
  function LinkStart(description: string, originalname: string): nat {
    |description| + |" !["| + |originalname| + |"]("|
  }

  /** `${description} ![${originalname}](${link})`. */
  function PreviewContent(description: string, originalname: string, filename: string): string {
    description + " ![" + originalname + "](" + UploadLink(filename) + ")"
  }

  /**
   * The preview content is the description, then an image reference whose alt
   * text is the original name and whose target is the link to the stored file.
   */
  lemma PreviewContentParts(description: string, originalname: string, filename: string)
    ensures var content, k := PreviewContent(description, originalname, filename), LinkStart(description, originalname);
      && |content| == k + |UploadLink(filename)| + 1
      && content[..|description|] == description
      && content[|description|..|description| + 3] == " !["
      && content[|description| + 3..k - 2] == originalname
      && content[k - 2..k] == "]("
      && content[k..|content| - 1] == UploadLink(filename)
      && content[|content| - 1] == ')'
  {
  }

  /** The preview content names the stored file it was built for: decoding the text between `](/uploads/` and the final `)` gives the filename back. */
  lemma PreviewLinksStoredFile(description: string, originalname: string, filename: string)
    ensures var content := PreviewContent(description, originalname, filename);
            DecodeURIComponent(content[LinkStart(description, originalname) + |UploadsPath|..|content| - 1])
            == Some(filename)
  {
    var content := PreviewContent(description, originalname, filename);
    var e := EncodeURIComponent(filename);
    var head := description + " ![" + originalname + "](" + UploadsPath;
    assert content == head + e + ")";
    assert |head| == LinkStart(description, originalname) + |UploadsPath|;
    assert content[|head|..|content| - 1] == e;
    DecodeEncode(filename);
  }

  /**
   * Given where the description and the alt text end, the content determines
   * the description, the original name and the stored file it links to.
   */
  lemma PreviewContentInjective(d1: string, o1: string, f1: string, d2: string, o2: string, f2: string)
    requires |d1| == |d2| && |o1| == |o2|
    requires PreviewContent(d1, o1, f1) == PreviewContent(d2, o2, f2)
    ensures d1 == d2 && o1 == o2 && f1 == f2
  {
    var c := PreviewContent(d1, o1, f1);
    PreviewContentParts(d1, o1, f1);
    PreviewContentParts(d2, o2, f2);
    assert d1 == c[..|d1|] == d2;
    assert o1 == c[|d1| + 3..LinkStart(d1, o1) - 2] == o2;
    PreviewLinksStoredFile(d1, o1, f1);
    PreviewLinksStoredFile(d2, o2, f2);
  }

  /** The exact template: description, space, image reference to the encoded stored name. */
  lemma PreviewTemplate(description: string, originalname: string, filename: string)
    ensures PreviewContent(description, originalname, filename)
            == description + " ![" + originalname + "](" + UploadsPath + EncodeURIComponent(filename) + ")"
  {
  }

  /** The literal text of the example below, checked on its own so the example's proof stays small. */
  lemma SpaceExampleText()
    ensures "hello" + " ![" + "photo.png" + "](" + "/uploads/" + "a%20b.png" + ")"
            == "hello ![photo.png](/uploads/a%20b.png)"
  {
  }

  /** The example of a stored name with a space in it. */
  lemma PreviewWithSpaceExample(description: string, originalname: string, filename: string)
    requires description == "hello" && originalname == "photo.png" && filename == "a b.png"
    ensures PreviewContent(description, originalname, filename) == "hello ![photo.png](/uploads/a%20b.png)"
  {
    PreviewTemplate(description, originalname, filename);
    EncodeSpaceExample();
    SpaceExampleText();
  }

  /** A name made of unreserved characters only, such as the hexadecimal names the uploader assigns, is linked verbatim. */
  lemma PreviewUnreservedName(description: string, originalname: string, filename: string)
    requires forall i :: 0 <= i < |filename| ==> IsUnreserved(filename[i])
    ensures PreviewContent(description, originalname, filename)
            == description + " ![" + originalname + "](" + UploadsPath + filename + ")"
  {
    PreviewTemplate(description, originalname, filename);
    EncodeUnreservedUnchanged(filename);
  }
}
