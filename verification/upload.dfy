/**
  The upload filter of the web front end: a file is accepted when its name
  has a dot and the text after the last dot, lower-cased, is one of the
  allowed document extensions.
 */
module Upload {
  import opened Wrappers
  import Text

  /** `ALLOWED_EXTENSIONS` */
  const AllowedExtensions: set<string> := {"txt", "pdf", "md", "docx"}

  /**
    `filename.rsplit('.', 1)[1]`: the text after the last dot, or `None`
    when the name has no dot (the split then yields a single part).
   */
  function AfterLastDot(filename: string): (ext: Option<string>)
    ensures ext.None? <==> '.' !in filename
    ensures ext.Some? ==>
      && |ext.value| < |filename|
      && '.' !in ext.value
      && filename[|filename| - |ext.value| - 1] == '.'
      && filename[|filename| - |ext.value|..] == ext.value
    decreases |filename|
  {
    if |filename| == 0 then None
    else
      var init, last := filename[..|filename| - 1], filename[|filename| - 1];
      assert filename == init + [last];
      if last == '.' then Some([])
      else
        match AfterLastDot(init)
        case None => None
        case Some(e) => Some(e + [last])
  }

  /** `allowed_file` */
  function AllowedFile(filename: string): (ok: bool)
    ensures '.' !in filename ==> !ok
    ensures ok ==> exists k :: 0 <= k < |filename| && filename[k] == '.' && Text.Lower(filename[k + 1..]) in AllowedExtensions
  {
    match AfterLastDot(filename)
    case None => false
    case Some(ext) => Text.Lower(ext) in AllowedExtensions
  }

  /** The split finds exactly the extension written after the final dot, whatever the stem holds. */
  lemma {:induction false} AfterLastDotOfName(stem: string, ext: string)
    requires '.' !in ext
    ensures AfterLastDot(stem + "." + ext) == Some(ext)
    decreases |ext|
  {
    var name := stem + "." + ext;
    if |ext| == 0 {
      assert name[|name| - 1] == '.';
    } else {
      var init := ext[..|ext| - 1];
      assert name[..|name| - 1] == stem + "." + init;
      assert init + [ext[|ext| - 1]] == ext;
      AfterLastDotOfName(stem, init);
    }
  }

  /**
    A name is accepted exactly when its final extension, in any case, is
    allowed: the stem plays no part, even when it has dots of its own.
   */
  lemma ExtensionDecides(stem: string, ext: string)
    requires '.' !in ext
    ensures AllowedFile(stem + "." + ext) <==> Text.Lower(ext) in AllowedExtensions
  {
    AfterLastDotOfName(stem, ext);
  }

  /** Matching ignores case: `A.PDF` or `x.exe.PDF`, like any name ending in `.PDF`, is accepted. */
  lemma UpperCaseAccepted(stem: string)
    ensures AllowedFile(stem + ".PDF")
  {
    assert stem + ".PDF" == stem + "." + "PDF";
    ExtensionDecides(stem, "PDF");
    assert Text.Lower("PDF") == "pdf";
  }

  /** Only the final extension counts: `x.pdf.exe`, like any name ending in `.exe`, is rejected. */
  lemma HiddenExecutableRejected(stem: string)
    ensures !AllowedFile(stem + ".exe")
  {
    assert stem + ".exe" == stem + "." + "exe";
    ExtensionDecides(stem, "exe");
    assert Text.Lower("exe") == "exe";
    assert "exe" !in AllowedExtensions by {
      assert "exe"[0] == 'e';
    }
  }

  /** An empty stem is fine: `.md` is accepted. */
  lemma EmptyStemAccepted()
    ensures AllowedFile(".md")
  {
    assert "" + "." + "md" == ".md";
    ExtensionDecides("", "md");
    assert Text.Lower("md") == "md";
  }

  /** A name ending in a dot has an empty extension and is rejected. */
  lemma TrailingDotRejected(stem: string)
    ensures !AllowedFile(stem + ".")
  {
    assert stem + "." == stem + "." + "";
    ExtensionDecides(stem, "");
  }
}
