/**
 * The checks of the static ImageHelper on an uploaded profile photo, the guard in
 * front of saving it, and the choice of unit when a file size is displayed.  The
 * uploaded file is the value of its length, client file name and content type.
 */
module ImageHelper {
  import opened Wrappers
  import opened Text

  const AllowedExtensions: seq<string> := [".jpg", ".jpeg", ".png", ".gif", ".webp", ".bmp"]

  /** 5 MB. */
  const MaxFileSize: int := 5 * 1024 * 1024

  const ValidMimeTypes: seq<string> :=
    ["image/jpeg", "image/jpg", "image/png", "image/gif", "image/webp", "image/bmp"]

  /** IFormFile: only the members the checks read. */
  datatype FormFile = FormFile(length: int, fileName: string, contentType: string)

  /** Path directory separators, as on Windows. */
  predicate IsDirectorySeparator(c: char) { c == '/' || c == '\\' }

  /** The extension Path.GetExtension finds in path[..i], given that path[i..] holds
      no `.` and no separator: scanning backwards, the suffix from the first `.` met,
      unless a directory separator or the start comes first. */
  function ExtensionBefore(path: string, i: nat): (r: string)
    requires i <= |path|
    requires forall k :: i <= k < |path| ==> path[k] != '.' && !IsDirectorySeparator(path[k])
    ensures |r| <= |path|
    ensures r == [] || (|r| >= 2 && r[0] == '.' && r == path[|path| - |r|..])
    ensures forall k :: 1 <= k < |r| ==> r[k] != '.' && !IsDirectorySeparator(r[k])
    decreases i
  {
    if i == 0 then []
    else if path[i - 1] == '.' then
      if i != |path| then
        path[i - 1..]
      else []
    else if IsDirectorySeparator(path[i - 1]) then []
    else ExtensionBefore(path, i - 1)
  }

  /** Every `.` in path[..i] is followed, before i, by a directory separator. */
  predicate NoDotInLastSegment(path: string, i: nat)
    requires i <= |path|
  {
    forall k :: 0 <= k < i && path[k] == '.' ==> exists j :: k < j < i && IsDirectorySeparator(path[j])
  }

  /** The scan finds nothing exactly when the path ends in `.` or the last segment holds no `.`. */
  lemma {:induction false} ExtensionBeforeEmptyIff(path: string, i: nat)
    requires i <= |path|
    requires forall k :: i <= k < |path| ==> path[k] != '.' && !IsDirectorySeparator(path[k])
    ensures ExtensionBefore(path, i) == [] <==> (i == |path| && i > 0 && path[i - 1] == '.') || NoDotInLastSegment(path, i)
    decreases i
  {
    if i > 0 && path[i - 1] != '.' {
      if IsDirectorySeparator(path[i - 1]) {
        forall k | 0 <= k < i && path[k] == '.' ensures exists j :: k < j < i && IsDirectorySeparator(path[j]) {
          assert k < i - 1 && IsDirectorySeparator(path[i - 1]);
        }
      } else {
        ExtensionBeforeEmptyIff(path, i - 1);
        if NoDotInLastSegment(path, i - 1) {
          forall k | 0 <= k < i && path[k] == '.' ensures exists j :: k < j < i && IsDirectorySeparator(path[j]) {
            var j :| k < j < i - 1 && IsDirectorySeparator(path[j]);
          }
        }
        if NoDotInLastSegment(path, i) {
          forall k | 0 <= k < i - 1 && path[k] == '.' ensures exists j :: k < j < i - 1 && IsDirectorySeparator(path[j]) {
            var j :| k < j < i && IsDirectorySeparator(path[j]);
            assert j != i - 1;
          }
        }
      }
    }
  }

  /** Path.GetExtension: the final `.`-suffix of the last path segment, empty when
      there is none or when the `.` is the last character. */
  function GetExtension(path: string): (r: string)
    ensures |r| <= |path|
    ensures r == [] || (|r| >= 2 && r[0] == '.' && r == path[|path| - |r|..])
    ensures forall k :: 1 <= k < |r| ==> r[k] != '.' && !IsDirectorySeparator(r[k])
    ensures r == [] <==> (|path| > 0 && path[|path| - 1] == '.') || NoDotInLastSegment(path, |path|)
  {
    ExtensionBeforeEmptyIff(path, |path|);
    ExtensionBefore(path, |path|)
  }

  predicate IsValidImageMimeType(contentType: string) {
    ToLowerAscii(contentType) in ValidMimeTypes
  }

  predicate HasAllowedExtension(fileName: string) {
    ToLowerAscii(GetExtension(fileName)) in AllowedExtensions
  }

  /** IsValidImage; `None` is a null file. */
  predicate IsValidImage(file: Option<FormFile>) {
    if file.None? || file.value.length == 0 then false
    else if file.value.length > MaxFileSize then false
    else if !HasAllowedExtension(file.value.fileName) then false
    else if !IsValidImageMimeType(file.value.contentType) then false
    else true
  }

  const NoFileMessage := "Файл не выбран"
  const UnknownErrorMessage := "Неизвестная ошибка"
  const BadMimeTypeMessage := "Недопустимый MIME тип файла"

  function TooLargeMessage(): string {
    "Размер файла превышает " + IntToString(MaxFileSize / (1024 * 1024)) + " МБ"
  }

  function BadExtensionMessage(): string {
    "Недопустимый формат файла. Разрешены: " + Join(", ", AllowedExtensions)
  }

  /** GetValidationError: the message of the first check IsValidImage fails. */
  function GetValidationError(file: Option<FormFile>): string {
    if file.None? || file.value.length == 0 then NoFileMessage
    else if file.value.length > MaxFileSize then TooLargeMessage()
    else if !HasAllowedExtension(file.value.fileName) then BadExtensionMessage()
    else if !IsValidImageMimeType(file.value.contentType) then BadMimeTypeMessage
    else UnknownErrorMessage
  }

  /** None of the rejection messages reads "Неизвестная ошибка". */
  lemma RejectionMessagesDiffer()
    ensures NoFileMessage != UnknownErrorMessage && BadMimeTypeMessage != UnknownErrorMessage
    ensures TooLargeMessage() != UnknownErrorMessage && BadExtensionMessage() != UnknownErrorMessage
  {
    assert NoFileMessage[1] != UnknownErrorMessage[1];
    assert BadMimeTypeMessage[2] != UnknownErrorMessage[2];
    var large, prefix := TooLargeMessage(), "Размер файла превышает ";
    assert large[0] == prefix[0];
    var badExtension, intro := BadExtensionMessage(), "Недопустимый формат файла. Разрешены: ";
    assert badExtension[2] == intro[2];
  }

  /** The validation error is "Неизвестная ошибка" exactly for the files IsValidImage
      accepts; every rejected file gets a message naming its fault. */
  lemma ValidationErrorIff(file: Option<FormFile>)
    ensures GetValidationError(file) == UnknownErrorMessage <==> IsValidImage(file)
  {
    RejectionMessagesDiffer();
  }

  /** The size limit is inclusive: a file of exactly 5 MB passes the size check, one
      byte more fails it. */
  lemma SizeLimitInclusive(name: string, mime: string)
    requires HasAllowedExtension(name) && IsValidImageMimeType(mime)
    ensures IsValidImage(Some(FormFile(MaxFileSize, name, mime)))
    ensures !IsValidImage(Some(FormFile(MaxFileSize + 1, name, mime)))
  {
  }

  /** Extensions are compared in lower case: "photo.JPG" is accepted. */
  lemma UpperCaseExtensionAccepted()
    ensures HasAllowedExtension("photo.JPG")
  {
    var p := "photo.JPG";
    assert ExtensionBefore(p, 9) == ExtensionBefore(p, 8) == ExtensionBefore(p, 7) == ExtensionBefore(p, 6);
    assert GetExtension(p) == ".JPG";
    var l := ToLowerAscii(".JPG");
    assert l[0] == '.' && l[1] == 'j' && l[2] == 'p' && l[3] == 'g';
    assert l == AllowedExtensions[0];
  }

  /** MIME types are compared in lower case: "image/JPEG" is accepted. */
  lemma UpperCaseMimeTypeAccepted()
    ensures IsValidImageMimeType("image/JPEG")
  {
    var m := ToLowerAscii("image/JPEG");
    forall i | 0 <= i < 10 ensures m[i] == "image/jpeg"[i] {
      assert m[i] == ToLowerAsciiChar("image/JPEG"[i]);
    }
    assert m == ValidMimeTypes[0];
  }

  /** The guard of SaveProfileImageAsync, with the file written out under
      "/uploads/profiles/{userId}_{guid}{extension}"; `guid` stands for the fresh
      Guid.NewGuid() text. An invalid file raises ArgumentException with the
      validation error before anything is written. */
  function SaveProfileImage(file: Option<FormFile>, userId: string, guid: string): (r: Result<string, string>)
    ensures r.Failure? <==> !IsValidImage(file)
    ensures r.Failure? ==> r.error == GetValidationError(file) && r.error != UnknownErrorMessage
    ensures r.Success? ==>
      && StartsWith(r.value, "/uploads/profiles/" + userId + "_" + guid)
      && exists e :: e in AllowedExtensions && r.value == "/uploads/profiles/" + userId + "_" + guid + e
  {
    if !IsValidImage(file) then
      ValidationErrorIff(file);
      Failure(GetValidationError(file))
    else
      var prefix := "/uploads/profiles/" + userId + "_" + guid;
      var extension := ToLowerAscii(GetExtension(file.value.fileName));
      assert (prefix + extension)[..|prefix|] == prefix;
      Success(prefix + extension)
  }

  // ---------------------------------------------------------------- file sizes

  const SizeUnits: seq<string> := ["Б", "КБ", "МБ", "ГБ"]

  function Pow1024(k: nat): (p: nat)
    ensures p >= 1
  {
    if k == 0 then 1 else 1024 * Pow1024(k - 1)
  }

  /** The unit FormatFileSize picks: the largest k <= 3 with bytes >= 1024^k, and 0
      when there is none. */
  function UnitIndex(bytes: int): (k: nat)
    ensures k < |SizeUnits|
    ensures k == 0 || bytes >= Pow1024(k)
    ensures k == |SizeUnits| - 1 || bytes < Pow1024(k + 1)
  {
    if bytes >= Pow1024(3) then 3
    else if bytes >= Pow1024(2) then 2
    else if bytes >= Pow1024(1) then 1
    else 0
  }

  /** The characterisation of UnitIndex singles out one unit. */
  lemma UnitIndexUnique(bytes: int, k: nat)
    requires k < |SizeUnits|
    requires k == 0 || bytes >= Pow1024(k)
    requires k == |SizeUnits| - 1 || bytes < Pow1024(k + 1)
    ensures k == UnitIndex(bytes)
  {
    assert Pow1024(1) == 1024 && Pow1024(2) == 1048576 && Pow1024(3) == 1073741824;
    assert Pow1024(4) == 1099511627776;
  }

  /** Comparing a scaled size with 1024 is comparing the size with the next power. */
  lemma ScaledCompare(size: real, bytes: real, p: real)
    requires p > 0.0 && size * p == bytes
    ensures size >= 1024.0 <==> bytes >= 1024.0 * p
  {
    if size >= 1024.0 {
      assert size * p >= 1024.0 * p;
    } else {
      assert size * p < 1024.0 * p;
    }
  }

  /** One more division by 1024 goes with one more power of 1024. */
  lemma ScaleStep(size: real, bytes: real, k: nat)
    requires size * (Pow1024(k) as real) == bytes
    ensures (size / 1024.0) * (Pow1024(k + 1) as real) == bytes
  {
    var p := Pow1024(k) as real;
    assert Pow1024(k + 1) as real == 1024.0 * p;
    calc {
      (size / 1024.0) * (1024.0 * p);
      ((size / 1024.0) * 1024.0) * p;
      size * p;
    }
  }

  /** FormatFileSize up to the "0.##" rendering of the number: the size divided by
      1024 as long as it is at least 1024 and a larger unit exists, and that unit. */
  method FormatFileSize(bytes: int) returns (size: real, unit: string)
    ensures unit == SizeUnits[UnitIndex(bytes)]
    ensures size * (Pow1024(UnitIndex(bytes)) as real) == bytes as real
  {
    size := bytes as real;
    var order := 0;
    while size >= 1024.0 && order < |SizeUnits| - 1
      invariant 0 <= order < |SizeUnits|
      invariant size * (Pow1024(order) as real) == bytes as real
      invariant order == 0 || bytes >= Pow1024(order)
    {
      ScaledCompare(size, bytes as real, Pow1024(order) as real);
      assert bytes >= 1024 * Pow1024(order);
      ScaleStep(size, bytes as real, order);
      order := order + 1;
      size := size / 1024.0;
    }
    ScaledCompare(size, bytes as real, Pow1024(order) as real);
    UnitIndexUnique(bytes, order);
    unit := SizeUnits[order];
  }
}
