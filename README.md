# img_pdf: numbered page images to one PDF per chapter folder

This project is a Dafny model of `convert_folder_to_pdf` and `MAX_WORKERS` in
`img_pdf.py`, the script that turns every chapter folder of a manga download
into one PDF.

For one folder, the conversion does these steps:

1. It keeps the listing entries whose lower-cased name ends with `.jpg`,
   `.jpeg`, `.png` or `.webp`.
2. It sorts the kept names, stably, by `int(os.path.splitext(name)[0])`.
3. It returns `"<folder>: no images"` when nothing was kept.
4. Otherwise it opens every image in sorted order and saves the first one as
   `<OUTPUT_FOLDER>/<folder>.pdf`, with the rest appended.
5. It then returns `"<folder>: <n> images → PDF"`.

The files:

- `wrappers.dfy` holds `Option` and `Result`. A `Result.Failure` stands for a
  Python exception.
- `py_text.dfy` (module `PyText`) models the `str`/`int` builtins the script
  relies on: `lower`, `endswith`, `rfind`, `int(s)` and `str(n)`.
- `py_path.dfy` (module `PyPath`) models POSIX `os.path`: `splitext`,
  `basename`, `normpath` and `join`. It also has `str.split('/')` and
  `'/'.join`: the model follows the pure-Python definition of `normpath`,
  which is built on them.
- `py_list.dfy` (module `PyList`) models a list comprehension with a condition
  and `sorted(key=...)`, written as a stable insertion sort.
- `img_pdf.dfy` (module `ImgPdf`) is the script itself.
  - Selection, ordering, paths, status strings and the worker count are
    functions.
  - The page loop is the method `DecodePages`.
  - The conversion is the method `ConvertFolderToPdf`, together with
    `ConvertImages`, its part after the `if not images` return.

Inputs and outside calls:

- The folder listing is the parameter `listing`.
- Opening and RGB-converting an image is the parameter
  `decode: string -> Option<P>`. `P` stands for a decoded page. `None` means
  that the imaging library raised on that file.
- `ConvertFolderToPdf` returns an `Outcome` with three parts:
  - the status string, or the exception that escapes;
  - the image paths opened, in order;
  - the `save` call, if it is reached: the output path, the first page and
    the appended pages.

Behaviours a reader might expect that the code does not have:

- A file that fails to decode is not skipped. Nothing catches the exception
  from `Image.open`, so it ends the conversion.
- There is no `"no valid images"` status.
- A non-numeric stem such as `cover` does not fall back to string order. The
  sort key raises `ValueError`, so ordering fails.
- The success status uses the arrow character `→` (U+2192), not `->`.
- The count in the success status is the number of sorted images. This always
  equals the number of pages saved, because no page is ever skipped.

## Model

| member | source | states |
|---|---|---|
| ImgPdf.MaxWorkers | img_pdf.py:11 | the pool has at least one worker; for two or more cores, exactly half of them (rounded down); for 0 or 1 cores, one; a CPU count of None makes the expression fail |
| ImgPdf.IsImageName | img_pdf.py:24 | the definition of the extension test: the lower-cased name ends with one of ".jpg", ".jpeg", ".png", ".webp"; its properties are stated by SelectImagesCount and IsImageNameBySuffix |
| ImgPdf.SelectImages | img_pdf.py:22-25 | every selected name ends, lower-cased, with one of the four image extensions |
| ImgPdf.SelectImagesCount | img_pdf.py:22-25 | a name is selected iff it is an image name, and as many times as the listing holds it: nothing added, dropped or duplicated |
| ImgPdf.SelectImagesAppend | img_pdf.py:22-25 | selection keeps listing order: selecting from a + b gives the selection from a followed by the selection from b |
| ImgPdf.IsImageNameBySuffix | img_pdf.py:24 | the extension test is a case-insensitive match on the name's last characters |
| ImgPdf.Stem | img_pdf.py:26 | the stem is a prefix of the name; the rest of `splitext(x)[0]` is pinned by PyPath.SplitExt |
| ImgPdf.StemKey | img_pdf.py:26 | the definition of the sort key `int(splitext(x)[0])`, None when int() raises; its properties are stated by StemOfNumberedName, DotNameIsItsOwnStem, LeadingZeroSamePage and OrderPagesKeys |
| ImgPdf.StemOfNumberedName | img_pdf.py:26 | for a name made of digits and an extension, the sort key is the decimal value of those digits |
| ImgPdf.SplitNumberedName | img_pdf.py:26 | splitext cuts a name made of digits and an extension exactly at the dot after the digits |
| ImgPdf.LeadingZeroSamePage | img_pdf.py:26 | "01.png" and "1.jpg" have the same key, so their relative order comes from the stable sort |
| ImgPdf.DotNameIsItsOwnStem | img_pdf.py:26 | a name like ".jpg" has no extension, its stem is the whole name, and int() rejects it |
| ImgPdf.OrderPages | img_pdf.py:21-27 | ordering fails iff some selected stem is not an integer; on success the result is a permutation of the selection, non-decreasing by page number |
| ImgPdf.OrderPagesFailure | img_pdf.py:26 | the failure is int()'s error on the first stem, in selection order, that is not an integer |
| ImgPdf.OrderPagesKeys | img_pdf.py:20-27 | on success every sorted name has an integer stem equal to the key it was sorted by, so "2" comes before "10" |
| ImgPdf.OrderPagesStable | img_pdf.py:21-27 | for every page number, the names carrying it keep their listing order |
| ImgPdf.FolderName | img_pdf.py:17 | the folder name is one path component: it holds no separator |
| ImgPdf.OutputPdfPath | img_pdf.py:18 | the PDF goes to OUTPUT_FOLDER + "/" + folder name + ".pdf" |
| ImgPdf.PdfJoinedOnto | img_pdf.py:18 | joining "<name>.pdf" onto a directory that does not end in "/" puts exactly one "/" between them |
| ImgPdf.PdfNamesDiffer | img_pdf.py:18 | in one directory, different folder names give different PDF paths |
| ImgPdf.SubfolderPdfPath | img_pdf.py:17-18 | for a subfolder joined onto any parent path, the PDF is named after the subfolder entry itself |
| ImgPdf.DistinctSubfoldersDistinctPdfs | img_pdf.py:17-18 | two different subfolder entries never write the same PDF path |
| ImgPdf.NoImagesStatus | img_pdf.py:30 | the definition of `f"{folder_name}: no images"`; StatusesDiffer states its property |
| ImgPdf.ConvertedStatus | img_pdf.py:50 | the definition of `f"{folder_name}: {len(images)} images → PDF"`; ConvertedStatusCount and StatusesDiffer state its properties |
| ImgPdf.ConvertedStatusCount | img_pdf.py:50 | the success status is "<folder>: " then a count that int() reads back as the number of images |
| ImgPdf.StatusesDiffer | img_pdf.py:29-50 | no success status equals a "no images" status, whatever the folder names |
| ImgPdf.DecodePages | img_pdf.py:32-42 | one page per image, in sorted order, each the decoding of join(folder, name); or the index of the first image that cannot be opened, all earlier ones having opened |
| ImgPdf.ConvertImages | img_pdf.py:32-50 | with a non-empty ordered list, either the first unreadable path raises after opening exactly the paths up to it and writes nothing, or every path is opened in order, the PDF path is the output path, first page plus appended pages are the decoded images in order, and the status reports their count |
| ImgPdf.ConvertFolderToPdf | img_pdf.py:16-50 | ordering errors escape with nothing opened or written; an empty selection returns "<folder>: no images" with nothing opened or written; otherwise as ConvertImages on the sorted names |
| PyText.ParseInt | img_pdf.py:26 | int() succeeds only on a non-empty string of ASCII digits after an optional sign, and the sign decides whether the value is negative or non-negative; ParseIntLiteral and ParseIntOnlyLiterals complete it |
| PyText.Lower | img_pdf.py:24 | `lower()` keeps the length and lower-cases each character on its own (ASCII letters only) |
| PyText.EndsWith | img_pdf.py:24 | the definition of `endswith`: the suffix is no longer than the string and equals its last characters |
| PyText.ParseIntLiteral | img_pdf.py:26 | int() of an optional sign followed by digits is the signed decimal value of the digits |
| PyText.ParseIntOnlyLiterals | img_pdf.py:26 | int() succeeds exactly on an optional sign followed by at least one digit |
| PyText.LeadingZero | img_pdf.py:26 | a leading zero does not change a decimal value |
| PyText.NatToStringValue | img_pdf.py:50 | the digits str(n) writes have decimal value n |
| PyText.ParseNatToString | img_pdf.py:50 | int(str(n)) == n for every count n |
| PyText.NatToString | img_pdf.py:50 | str(n) is a non-empty run of digits without a leading zero |
| PyText.RFind | img_pdf.py:26 | rfind gives the last index holding the character, or -1 when there is none |
| PyPath.SplitExt | img_pdf.py:26 | root + ext is the name; ext is empty or one dot followed by no dot or separator; a split never leaves an all-dots last component, and no split happens only when every dot of the last component is a leading dot |
| PyPath.Basename | img_pdf.py:17 | the basename is the suffix after the last separator and contains none |
| PyPath.SplitOn | img_pdf.py:17 | `split("/")` gives at least one piece and no piece holds the separator; JoinSplit proves that joining the pieces gives back the string |
| PyPath.JoinWith | img_pdf.py:17 | the definition of `"/".join(parts)`; JoinSplit states its property |
| PyPath.NormPath | img_pdf.py:17 | normpath never returns the empty string; beyond that, its only proved property is the entry-name case in BasenameOfJoinedEntry |
| PyPath.JoinSplit | img_pdf.py:17 | joining the split pieces of a path with "/" gives back the path |
| PyPath.BasenameOfJoinedEntry | img_pdf.py:17 | basename(normpath(join(parent, d))) == d for every directory entry d and every parent |
| PyPath.JoinPath | img_pdf.py:18 | join with an absolute second part is that part; with a relative second part it is the first part, then exactly one "/" inserted only when the first part is non-empty and does not end in "/", then the second part |
| PyPath.BasenameOfJoinedName | img_pdf.py:40 | a name without separators joined onto any folder path is the basename of the result |
| ImgPdf.ImagePaths | img_pdf.py:34-40 | one path per image, in order, and each path's basename is its image name |
| PyList.Filter | img_pdf.py:22-25 | every kept element satisfies the condition, and no more elements than the input are kept |
| PyList.FilterCount | img_pdf.py:22-25 | each element is kept as often as it occurs when the condition holds, never otherwise |
| PyList.FilterAppend | img_pdf.py:22-25 | the comprehension distributes over concatenation, so it keeps order |
| PyList.FirstFailing | img_pdf.py:26 | the index of the first element on which the test fails, or the length when it never fails |
| PyList.SortedBy | img_pdf.py:21-27 | sorted() returns a permutation of its input whose keys never decrease |
| PyList.InsertKeepsSorted | img_pdf.py:21-27 | inserting into a key-sorted list keeps it sorted |
| PyList.SortedByKeepsTies | img_pdf.py:21-27 | sorted() is stable: elements with equal keys keep their relative order |

## Left out

- `main()` (img_pdf.py:53-80) is not modelled. Its parts are listing and filtering the parent folder with `os.listdir`/`os.path.isdir`, the `ProcessPoolExecutor` fan-out with `executor.map`, the `tqdm` progress bars, `time.perf_counter` timing with its millisecond conversion, and the printed summary. These are process-level concurrency, file system access, wall-clock time and console output. The two facts about them that this model can state are proved instead: `BasenameOfJoinedEntry` and `SubfolderPdfPath` say that each subfolder's PDF is named after the subfolder, and `DistinctSubfoldersDistinctPdfs` says that parallel tasks never write the same file. `executor.map` yields results in submission order. This is not modelled.
- `os.makedirs(OUTPUT_FOLDER, exist_ok=True)` (img_pdf.py:13) and `os.listdir(folder_path)` (img_pdf.py:23) are file system I/O. The listing is an input sequence, and the errors `listdir` can raise are not modelled.
- Image decoding, RGB conversion and the truncated-image setting (img_pdf.py:4, 41) belong to the imaging library. They are the abstract `decode` parameter.
- PDF encoding and writing (img_pdf.py:44-48) belong to the imaging library and the file system. The model records the `save` call it makes and treats it as always succeeding.
- The `tqdm` wrapper around the page loop (img_pdf.py:34-39) only draws a progress bar. The loop is modelled without it.
- PyText.ParseInt: accepts only an optional `+`/`-` followed by ASCII digits. Python's `int()` also strips surrounding whitespace, allows `_` between digits and accepts non-ASCII decimal digits. A stem such as `" 3"` or `"1_0"` is an error in the model but a number in Python.
- PyText.Lower: lower-cases ASCII letters only. Python's `str.lower` is full Unicode lower-casing.
- PyPath: every path function (`SplitExt`, `Basename`, `NormPath`, `JoinPath`) follows the POSIX `posixpath` module, with "/" as the only separator. The Windows rules of `ntpath` are not modelled: `\` as a second separator, drive letters and UNC prefixes.
