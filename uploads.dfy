/** The upload validator: a file name is accepted when it has an extension,
    the text after its last dot, whose lower-cased form is one of a fixed
    set of twelve. */
module Uploads {
  import opened Text

  const AllowedExtensions: set<string> :=
    {"txt", "pdf", "png", "jpg", "jpeg", "gif", "zip", "mp4", "mp3", "csv", "xlsx", "docx"}

  /** `filename.rsplit('.', 1)[1]`: the text after the last dot. Python
      raises on a name without a dot, so the caller guards with `'.' in`. */
  function AfterLastDot(filename: string): (ext: string)
    requires '.' in filename
    ensures '.' !in ext
    ensures |ext| < |filename| && filename[|filename| - |ext| - 1] == '.'
    ensures filename[|filename| - |ext|..] == ext
  {
    filename[LastIndexOf(filename, '.').value + 1..]
  }

  /** A dot with no dot after it is the last dot. */
  lemma LastDotIsUnique(filename: string)
    requires '.' in filename
    ensures forall k :: 0 <= k < |filename| && filename[k] == '.' && '.' !in filename[k + 1..] ==>
      k == LastIndexOf(filename, '.').value
  {
  }

  /** `allowed_file`. The shortest allowed extension has three letters, so
      an accepted name has at least four characters. */
  predicate AllowedFile(filename: string)
    ensures AllowedFile(filename) ==> 4 <= |filename|
  {
    '.' in filename && Lower(AfterLastDot(filename)) in AllowedExtensions
  }

  /** Choosing the last dot is the same as choosing a dot with no dot after
      it, whatever set of extensions is tested. */
  lemma ExtensionAtLastDot(filename: string, extensions: set<string>)
    ensures ('.' in filename && Lower(AfterLastDot(filename)) in extensions) <==>
      exists k :: 0 <= k < |filename| && filename[k] == '.' && '.' !in filename[k + 1..]
        && Lower(filename[k + 1..]) in extensions
  {
    if '.' in filename {
      var last := LastIndexOf(filename, '.').value;
      assert filename[last + 1..] == AfterLastDot(filename);
      if Lower(AfterLastDot(filename)) !in extensions {
        LastDotIsUnique(filename);
        forall k | 0 <= k < |filename| && filename[k] == '.' && '.' !in filename[k + 1..]
          ensures Lower(filename[k + 1..]) !in extensions
        {
          assert k == last;
        }
      }
    }
  }

  /** An independent description of the validator: the name has some dot
      with no dot after it, and the text after that dot, lower-cased, is an
      allowed extension. */
  lemma AllowedFileAtLastDot(filename: string)
    ensures AllowedFile(filename) <==>
      exists k :: 0 <= k < |filename| && filename[k] == '.' && '.' !in filename[k + 1..]
        && Lower(filename[k + 1..]) in AllowedExtensions
  {
    ExtensionAtLastDot(filename, AllowedExtensions);
  }

  /** A name with no dot is never accepted. */
  lemma NoDotRejected(filename: string)
    requires '.' !in filename
    ensures !AllowedFile(filename)
  {
  }

  /** Only the segment after the last dot decides: whatever precedes it,
      dots included, plays no part. */
  lemma AfterLastDotOfJoin(stem: string, ext: string)
    requires '.' !in ext
    ensures AfterLastDot(stem + "." + ext) == ext
  {
    var f := stem + "." + ext;
    assert f[|f| - |ext|..] == ext;
    assert f[|stem|] == '.';
  }

  /** Every name of the form `stem.ext` whose last segment is `ext` is
      accepted exactly when `ext`, lower-cased, is one of the twelve. */
  lemma AllowedFileOfJoin(stem: string, ext: string)
    requires '.' !in ext
    ensures AllowedFile(stem + "." + ext) <==> Lower(ext) in AllowedExtensions
  {
    AfterLastDotOfJoin(stem, ext);
    assert (stem + "." + ext)[|stem|] == '.';
  }

  /** Every name that contains a dot has that form. */
  lemma SplitAtLastDot(filename: string)
    requires '.' in filename
    ensures var ext := AfterLastDot(filename);
      filename == filename[..|filename| - |ext| - 1] + "." + ext
  {
  }

  /** A name ending in a dot has an empty extension and is rejected. */
  lemma TrailingDotRejected(stem: string)
    ensures !AllowedFile(stem + ".")
  {
    AllowedFileOfJoin(stem, "");
    assert stem + "." + "" == stem + ".";
  }

  /** The letter case of the name does not matter. */
  lemma AllowedFileOfLower(filename: string)
    ensures AllowedFile(Lower(filename)) == AllowedFile(filename)
  {
    LastDotOfLower(filename);
    assert '.' in Lower(filename) <==> '.' in filename by {
      assert LastIndexOf(Lower(filename), '.').None? <==> LastIndexOf(filename, '.').None?;
    }
    if '.' in filename {
      var k := LastIndexOf(filename, '.').value + 1;
      LowerSuffix(filename, k);
      LowerIdempotent(filename[k..]);
    }
  }

  /** Two names that agree up to ASCII letter case are both accepted or
      both rejected. */
  lemma CaseInsensitive(f: string, g: string)
    requires Lower(f) == Lower(g)
    ensures AllowedFile(f) == AllowedFile(g)
  {
    AllowedFileOfLower(f);
    AllowedFileOfLower(g);
  }

  /** The accepted extensions are twelve distinct strings. */
  lemma TwelveExtensions()
    ensures |AllowedExtensions| == 12
  {
  }

  /** Only the last segment counts: `a.txt.exe` is refused. */
  lemma ExampleLastSegmentRefused()
    ensures !AllowedFile("a.txt.exe")
  {
    AllowedFileOfJoin("a.txt", "exe");
    assert "a.txt" + "." + "exe" == "a.txt.exe";
    assert Lower("exe") == "exe";
  }

  /** Only the last segment counts: `a.exe.txt` is accepted. */
  lemma ExampleLastSegmentAccepted()
    ensures AllowedFile("a.exe.txt")
  {
    AllowedFileOfJoin("a.exe", "txt");
    assert "a.exe" + "." + "txt" == "a.exe.txt";
    assert Lower("txt") == "txt";
  }

  /** `PHOTO.JPG` is accepted like `photo.jpg`. */
  lemma ExampleUpperCase()
    ensures AllowedFile("PHOTO.JPG") && AllowedFile("photo.jpg")
  {
    AllowedFileOfJoin("photo", "jpg");
    assert "photo" + "." + "jpg" == "photo.jpg";
    assert Lower("jpg") == "jpg";
    assert Lower("PHOTO.JPG") == Lower("photo.jpg");
    CaseInsensitive("PHOTO.JPG", "photo.jpg");
  }

  /** `notes.` and `README` are refused. */
  lemma ExampleNoExtension()
    ensures !AllowedFile("notes.") && !AllowedFile("README")
  {
    TrailingDotRejected("notes");
    assert "notes" + "." == "notes.";
    NoDotRejected("README");
  }
}
