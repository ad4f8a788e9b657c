/**
 * img_pdf.py: turning one chapter folder of numbered page images into one PDF.
 *
 * `ConvertFolderToPdf` follows `convert_folder_to_pdf`: pick the image files of
 * the listing, order them by the integer value of their stem, open each one in
 * that order, and save the first page with the rest appended. Opening an image
 * is the parameter `decode` (None when the image library raises); the listing
 * of the folder is the parameter `listing`.
 */
module ImgPdf {
  import opened Wrappers
  import opened PyText
  import opened PyPath
  import opened PyList

  const ParentFolder: string := "readoshino.com"
  const OutputFolder: string := ParentFolder + "_pdf"
  const ImageExtensions: seq<string> := [".jpg", ".jpeg", ".png", ".webp"]

  /** The exceptions `convert_folder_to_pdf` lets escape. */
  datatype Failure =
    | InvalidLiteral(literal: string)  // ValueError from int() on a stem
    | CannotOpen(path: string)         // the image library could not open or convert this file

  /** The one `save` call: the first page, with the others appended in order. */
  datatype PdfWrite<P> = PdfWrite(path: string, first: P, appended: seq<P>)

  /**
   * What one conversion does: the status it returns or the exception it raises,
   * the image paths it opened in order, and the PDF it wrote, if any.
   */
  datatype Outcome<P> = Outcome(result: Result<string, Failure>, openedPaths: seq<string>, written: Option<PdfWrite<P>>)

  // ---------------------------------------------------------------- worker count

  /**
   * `max(1, os.cpu_count() // 2)`. `os.cpu_count()` may report None, and then
   * the floor division raises; the result is None in that case.
   */
  function MaxWorkers(cpuCount: Option<nat>): (w: Option<nat>)
    ensures w.None? <==> cpuCount.None?
    ensures w.Some? ==> w.value >= 1
    ensures w.Some? && cpuCount.value >= 2 ==> 2 * w.value <= cpuCount.value < 2 * w.value + 2
    ensures w.Some? && cpuCount.value < 2 ==> w.value == 1
  {
    match cpuCount
    case None => None
    case Some(n) => Some(if n / 2 >= 1 then n / 2 else 1)
  }

  // ---------------------------------------------------------------- selection

  /** The lower-cased name ends with one of the four image extensions. */
  predicate IsImageName(f: string)
  {
    exists ext | ext in ImageExtensions :: EndsWith(Lower(f), ext)
  }

  /** The list comprehension over the listing: image names, in listing order. */
  function SelectImages(listing: seq<string>): (images: seq<string>)
    ensures forall i :: 0 <= i < |images| ==> IsImageName(images[i])
  {
    Filter(listing, IsImageName)
  }

  /**
   * A name is selected exactly when it is an image name, and then as many
   * times as the listing holds it.
   */
  lemma SelectImagesCount(listing: seq<string>)
    ensures forall f :: multiset(SelectImages(listing))[f] == if IsImageName(f) then multiset(listing)[f] else 0
    ensures forall f :: f in SelectImages(listing) <==> f in listing && IsImageName(f)
  {
    FilterCount(listing, IsImageName);
  }

  /** Selection keeps the listing's order: it distributes over concatenation. */
  lemma SelectImagesAppend(a: seq<string>, b: seq<string>)
    ensures SelectImages(a + b) == SelectImages(a) + SelectImages(b)
  {
    FilterAppend(a, b, IsImageName);
  }

  /** The lower-cased suffix of a name is the suffix of the lower-cased name. */
  lemma LowerSuffix(f: string, n: nat)
    requires n <= |f|
    ensures Lower(f)[n..] == Lower(f[n..])
  {
  }

  /** A name is an image exactly when its last characters spell an extension, ignoring case. */
  lemma IsImageNameBySuffix(f: string)
    ensures IsImageName(f) <==>
      exists ext | ext in ImageExtensions :: |ext| <= |f| && Lower(f[|f| - |ext|..]) == ext
  {
    forall ext | ext in ImageExtensions && |ext| <= |f|
      ensures EndsWith(Lower(f), ext) <==> Lower(f[|f| - |ext|..]) == ext
    {
      LowerSuffix(f, |f| - |ext|);
    }
  }

  // ---------------------------------------------------------------- ordering

  /** `os.path.splitext(x)[0]`. */
  function Stem(name: string): (stem: string)
    ensures |stem| <= |name| && name[..|stem|] == stem
  {
    SplitExt(name).0
  }

  /** `int(os.path.splitext(x)[0])`; None when int() raises. */
  function StemKey(name: string): Option<int>
  {
    ParseInt(Stem(name))
  }

  /** A file named by digits and an extension has those digits as its stem. */
  lemma StemOfNumberedName(digits: string, ext: string)
    requires digits != [] && AllDigits(digits)
    requires ext != [] && IsExtension(ext)
    ensures Stem(digits + ext) == digits
    ensures StemKey(digits + ext) == Some(DigitsValue(digits))
  {
    SplitNumberedName(digits, ext);
    StemKeyOfDigits(digits + ext, digits);
  }

  /** A name whose stem is a run of digits is keyed by their decimal value. */
  lemma StemKeyOfDigits(name: string, digits: string)
    requires Stem(name) == digits && digits != [] && AllDigits(digits)
    ensures StemKey(name) == Some(DigitsValue(digits))
  {
    assert IsDigit(digits[0]) && !IsSign(digits[0]);
  }

  /** `splitext` cuts a numbered file name at the dot after its digits. */
  lemma SplitNumberedName(digits: string, ext: string)
    requires digits != [] && AllDigits(digits)
    requires ext != [] && IsExtension(ext)
    ensures SplitExt(digits + ext) == (digits, ext)
  {
    var p, n := digits + ext, |digits|;
    assert RFind(p, Sep) == -1 by {
      NumberedNameHasNoSep(digits, ext);
      RFindAbsent(p, Sep);
    }
    assert RFind(p, ExtSep) == n by {
      assert p[n + 1..] == ext[1..];
      RFindAt(p, ExtSep, n);
    }
    assert !AllDots(p[0..n]) by {
      assert p[0..n][0] == digits[0];
    }
    assert ExtIndex(p) == n;
    assert p[..n] == digits && p[n..] == ext;
  }

  lemma NumberedNameHasNoSep(digits: string, ext: string)
    requires AllDigits(digits) && IsExtension(ext)
    ensures Sep !in digits + ext
  {
    var p := digits + ext;
    assert forall i :: 0 <= i < |p| ==> p[i] == if i < |digits| then digits[i] else ext[i - |digits|];
  }

  /** "01.png" and "1.jpg" carry the same page number, so only stability orders them. */
  lemma LeadingZeroSamePage(digits: string, ext1: string, ext2: string)
    requires digits != [] && AllDigits(digits)
    requires ext1 != [] && IsExtension(ext1)
    requires ext2 != [] && IsExtension(ext2)
    ensures HasIntegerStem("0" + digits + ext1) && HasIntegerStem(digits + ext2)
    ensures PageNumber("0" + digits + ext1) == PageNumber(digits + ext2)
  {
    LeadingZero(digits);
    StemOfNumberedName("0" + digits, ext1);
    StemOfNumberedName(digits, ext2);
  }

  /**
   * A name whose only dot is its first character, such as ".jpg", has no
   * extension: the whole name is the stem, and int() rejects it.
   */
  lemma DotNameIsItsOwnStem(t: string)
    requires ExtSep !in t && Sep !in t
    ensures Stem([ExtSep] + t) == [ExtSep] + t
    ensures StemKey([ExtSep] + t).None?
  {
    var p := [ExtSep] + t;
    assert p[1..] == t;
    assert RFind(p, Sep) == -1 by {
      assert Sep !in p;
      RFindAbsent(p, Sep);
    }
    assert RFind(p, ExtSep) == 0 by {
      RFindAt(p, ExtSep, 0);
    }
    assert ExtIndex(p) == -1;
    assert !AllDigits(p) by {
      assert !IsDigit(p[0]);
    }
  }

  /**
   * The sort key as a total function. It is consulted only once every stem
   * has parsed, so the 0 of the unparsable case is never compared.
   */
  function PageNumber(name: string): int
  {
    match StemKey(name)
    case Some(v) => v
    case None => 0
  }

  /** Whether `int` accepts the stem of a name. */
  predicate HasIntegerStem(name: string)
  {
    StemKey(name).Some?
  }

  /**
   * `sorted(images, key=lambda x: int(os.path.splitext(x)[0]))`: Python works
   * out every key, in list order, before comparing any two, so the first stem
   * that is not an integer raises and nothing is sorted.
   */
  function OrderPages(images: seq<string>): (r: Result<seq<string>, Failure>)
    ensures r.Failure? <==> exists i :: 0 <= i < |images| && !HasIntegerStem(images[i])
    ensures r.Success? ==> multiset(r.value) == multiset(images)
    ensures r.Success? ==> IsSortedBy(r.value, PageNumber)
  {
    var k := FirstFailing(images, HasIntegerStem);
    if k < |images| then Failure(InvalidLiteral(Stem(images[k])))
    else Success(SortedBy(images, PageNumber))
  }

  /** The error is int()'s complaint about the first stem, in selection order, that is not an integer. */
  lemma OrderPagesFailure(images: seq<string>)
    ensures var r := OrderPages(images);
      r.Failure? ==>
        exists k :: 0 <= k < |images| && r.error == InvalidLiteral(Stem(images[k]))
          && StemKey(images[k]).None? && forall i :: 0 <= i < k ==> StemKey(images[i]).Some?
  {
    var k := FirstFailing(images, HasIntegerStem);
    if k < |images| {
      assert OrderPages(images).error == InvalidLiteral(Stem(images[k]));
    }
  }

  /** On success every page parsed, so the sort key is the integer value of each stem. */
  lemma OrderPagesKeys(images: seq<string>)
    ensures var r := OrderPages(images);
      r.Success? ==> forall i :: 0 <= i < |r.value| ==> StemKey(r.value[i]) == Some(PageNumber(r.value[i]))
  {
    var r := OrderPages(images);
    if r.Success? {
      forall i | 0 <= i < |r.value|
        ensures StemKey(r.value[i]) == Some(PageNumber(r.value[i]))
      {
        assert r.value[i] in multiset(images);
        var j :| 0 <= j < |images| && images[j] == r.value[i];
        assert HasIntegerStem(images[j]);
      }
    }
  }

  /** Stability: pages with the same number keep the order they were listed in. */
  lemma OrderPagesStable(images: seq<string>)
    ensures var r := OrderPages(images);
      r.Success? ==> forall n :: WithKey(r.value, PageNumber, n) == WithKey(images, PageNumber, n)
  {
    SortedByKeepsTies(images, PageNumber);
  }

  // ---------------------------------------------------------------- status and paths

  /** `os.path.basename(os.path.normpath(folder_path))`. */
  function FolderName(folderPath: string): (name: string)
    ensures Sep !in name
  {
    Basename(NormPath(folderPath))
  }

  /** `os.path.join(OUTPUT_FOLDER, f"{folder_name}.pdf")`. */
  function OutputPdfPath(folderPath: string): (out: string)
    ensures out == OutputFolder + "/" + FolderName(folderPath) + ".pdf"
  {
    OutputFolderIsDirName();
    PdfJoinedOnto(OutputFolder, FolderName(folderPath));
    JoinPath(OutputFolder, FolderName(folderPath) + ".pdf")
  }

  /** A PDF name joined onto a directory that does not end in "/" gets one "/" between. */
  lemma PdfJoinedOnto(dir: string, name: string)
    requires dir != [] && dir[|dir| - 1] != Sep && Sep !in name
    ensures JoinPath(dir, name + ".pdf") == dir + "/" + name + ".pdf"
  {
    var file := name + ".pdf";
    assert file[0] != Sep;
    JoinAfterName(dir, file);
    assert dir + [Sep] + file == dir + "/" + name + ".pdf";
  }

  lemma OutputFolderIsDirName()
    ensures OutputFolder != [] && OutputFolder[|OutputFolder| - 1] != Sep
  {
    assert OutputFolder[|OutputFolder| - 1] == "_pdf"[3];
  }

  /** The PDF of a chapter subfolder is named after the subfolder. */
  lemma SubfolderPdfPath(parent: string, d: string)
    requires IsEntryName(d)
    ensures OutputPdfPath(JoinPath(parent, d)) == OutputFolder + "/" + d + ".pdf"
  {
    BasenameOfJoinedEntry(parent, d);
  }

  /** Distinct subfolders write distinct PDFs, so parallel conversions never collide. */
  lemma DistinctSubfoldersDistinctPdfs(parent: string, d1: string, d2: string)
    requires IsEntryName(d1) && IsEntryName(d2) && d1 != d2
    ensures OutputPdfPath(JoinPath(parent, d1)) != OutputPdfPath(JoinPath(parent, d2))
  {
    SubfolderPdfPath(parent, d1);
    SubfolderPdfPath(parent, d2);
    PdfNamesDiffer(OutputFolder, d1, d2);
  }

  /** Within one directory, different names give different PDF paths. */
  lemma PdfNamesDiffer(dir: string, name1: string, name2: string)
    requires name1 != name2
    ensures dir + "/" + name1 + ".pdf" != dir + "/" + name2 + ".pdf"
  {
    var n := |dir| + 1;
    var p1, p2 := dir + "/" + name1 + ".pdf", dir + "/" + name2 + ".pdf";
    assert p1[n..|p1| - 4] == name1;
    assert p2[n..|p2| - 4] == name2;
  }

  const NoImagesSuffix: string := ": no images"
  const ConvertedSuffix: string := " images \U{2192} PDF"

  /** `f"{folder_name}: no images"`. */
  function NoImagesStatus(folderName: string): string
  {
    folderName + NoImagesSuffix
  }

  /** `f"{folder_name}: {len(images)} images → PDF"`. */
  function ConvertedStatus(folderName: string, count: nat): string
  {
    folderName + ": " + NatToString(count) + ConvertedSuffix
  }

  /** The count in a success status reads back as the number of images. */
  lemma ConvertedStatusCount(folderName: string, count: nat)
    ensures var s := ConvertedStatus(folderName, count);
      |folderName| + 2 <= |s| - |ConvertedSuffix|
      && s[..|folderName| + 2] == folderName + ": "
      && ParseInt(s[|folderName| + 2..|s| - |ConvertedSuffix|]) == Some(count)
  {
    var s := ConvertedStatus(folderName, count);
    assert s[|folderName| + 2..|s| - |ConvertedSuffix|] == NatToString(count);
    ParseNatToString(count);
  }

  /** The two statuses can always be told apart, whatever the folder names. */
  lemma StatusesDiffer(name1: string, name2: string, count: nat)
    ensures ConvertedStatus(name1, count) != NoImagesStatus(name2)
  {
    var s1, s2 := ConvertedStatus(name1, count), NoImagesStatus(name2);
    assert s1[|s1| - 1] == 'F';
    assert s2[|s2| - 1] == 's';
  }

  // ---------------------------------------------------------------- pages

  /** `os.path.join(folder_path, img_name)` for every image, in order. */
  function ImagePaths(folderPath: string, images: seq<string>): (paths: seq<string>)
    ensures |paths| == |images|
    ensures forall i :: 0 <= i < |images| && Sep !in images[i] ==> Basename(paths[i]) == images[i]
  {
    var paths := seq(|images|, i requires 0 <= i < |images| => JoinPath(folderPath, images[i]));
    assert forall i :: 0 <= i < |images| && Sep !in images[i] ==> Basename(paths[i]) == images[i] by {
      forall i | 0 <= i < |images| && Sep !in images[i] {
        BasenameOfJoinedName(folderPath, images[i]);
      }
    }
    paths
  }

  /** `pages` hold the decoded image of every path, one each, in the same order. */
  ghost predicate DecodedFrom<P>(pages: seq<P>, paths: seq<string>, decode: string -> Option<P>)
  {
    |pages| == |paths| && forall i :: 0 <= i < |paths| ==> decode(paths[i]) == Some(pages[i])
  }

  /** Every path before `k` opened, and path `k` did not. */
  ghost predicate FirstUnreadableAt<P>(paths: seq<string>, decode: string -> Option<P>, k: nat)
  {
    k < |paths| && decode(paths[k]).None? && forall i :: 0 <= i < k ==> decode(paths[i]).Some?
  }

  /**
   * The loop that fills `pil_images`: one decoded page per image, appended in
   * order. Without a try/except, the first image that cannot be opened ends
   * the loop with its exception; its index is the failure.
   */
  method DecodePages<P>(folderPath: string, images: seq<string>, decode: string -> Option<P>)
    returns (r: Result<seq<P>, nat>)
    ensures r.Success? ==> DecodedFrom(r.value, ImagePaths(folderPath, images), decode)
    ensures r.Failure? ==> FirstUnreadableAt(ImagePaths(folderPath, images), decode, r.error)
  {
    var pages: seq<P> := [];
    for i := 0 to |images|
      invariant |pages| == i
      invariant forall j :: 0 <= j < i ==> decode(JoinPath(folderPath, images[j])) == Some(pages[j])
    {
      var imgPath := JoinPath(folderPath, images[i]);
      var img := decode(imgPath);
      if img.None? {
        return Failure(i);
      }
      pages := pages + [img.value];
    }
    return Success(pages);
  }

  /**
   * The second half of `convert_folder_to_pdf`, reached with a non-empty,
   * ordered list of images: open them all, save the PDF, report the count.
   */
  method ConvertImages<P>(folderPath: string, images: seq<string>, decode: string -> Option<P>)
    returns (out: Outcome<P>)
    requires images != []
    ensures var paths := ImagePaths(folderPath, images);
      out.written.None? ==>
        exists k: nat :: FirstUnreadableAt(paths, decode, k)
          && out == Outcome(Failure(CannotOpen(paths[k])), paths[..k + 1], None)
    ensures var paths := ImagePaths(folderPath, images);
      out.written.Some? ==>
        var pdf := out.written.value;
        && out.result == Success(ConvertedStatus(FolderName(folderPath), |images|))
        && out.openedPaths == paths
        && pdf.path == OutputPdfPath(folderPath)
        && DecodedFrom([pdf.first] + pdf.appended, paths, decode)
  {
    var paths := ImagePaths(folderPath, images);
    var pilImages := DecodePages(folderPath, images, decode);
    if pilImages.Failure? {
      var k := pilImages.error;
      return Outcome(Failure(CannotOpen(paths[k])), paths[..k + 1], None);
    }
    var pages := pilImages.value;
    assert [pages[0]] + pages[1..] == pages;
    var pdf := PdfWrite(OutputPdfPath(folderPath), pages[0], pages[1..]);
    out := Outcome(Success(ConvertedStatus(FolderName(folderPath), |images|)), paths, Some(pdf));
  }

  /** `convert_folder_to_pdf(folder_path)`, given the folder's listing and the image decoder. */
  method ConvertFolderToPdf<P>(folderPath: string, listing: seq<string>, decode: string -> Option<P>)
    returns (out: Outcome<P>)
    ensures var order := OrderPages(SelectImages(listing));
      order.Failure? ==> out == Outcome(Failure(order.error), [], None)
    ensures var order := OrderPages(SelectImages(listing));
      order == Success([]) ==> out == Outcome(Success(NoImagesStatus(FolderName(folderPath))), [], None)
    ensures var order := OrderPages(SelectImages(listing));
      order.Success? && order.value != [] ==>
        var paths := ImagePaths(folderPath, order.value);
        if out.written.None? then
          exists k: nat :: FirstUnreadableAt(paths, decode, k)
            && out == Outcome(Failure(CannotOpen(paths[k])), paths[..k + 1], None)
        else
          var pdf := out.written.value;
          && out.result == Success(ConvertedStatus(FolderName(folderPath), |order.value|))
          && out.openedPaths == paths
          && pdf.path == OutputPdfPath(folderPath)
          && DecodedFrom([pdf.first] + pdf.appended, paths, decode)
  {
    var order := OrderPages(SelectImages(listing));
    if order.Failure? {
      return Outcome(Failure(order.error), [], None);
    }
    var images := order.value;
    if images == [] {
      return Outcome(Success(NoImagesStatus(FolderName(folderPath))), [], None);
    }
    out := ConvertImages(folderPath, images, decode);
  }
}
