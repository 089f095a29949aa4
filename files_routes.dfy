/** The pure parts of the file routes: the date string and temporary file
    name multer stores an upload under, and the checks each route makes on its
    parameters, in order, before it calls the controller. */
module FilesRoutes {
  import opened Outcomes
  import opened JsRuntime
  import opened Interfaces
  import opened ErrorMiddleware
  import opened AuthMiddleware

  // ---------------------------------------------------------------------------
  // getDateString

  /** The local-time fields of `new Date()`; `monthIndex` is 0-based, as
      `getMonth()` returns it. */
  datatype Moment = Moment(year: nat, monthIndex: nat, day: nat, hours: nat, minutes: nat, seconds: nat, millis: nat)

  /** The ranges `Date`'s getters keep to. */
  predicate ValidMoment(m: Moment) {
    m.monthIndex < 12 && 1 <= m.day <= 31 && m.hours < 24 && m.minutes < 60 && m.seconds < 60 && m.millis < 1000
  }

  /** `${n}`.padStart(2, "0"). */
  function Pad2(n: nat): string {
    PadStart(NatToString(n), 2, '0')
  }

  /** `getDateString()`: "DD-MM-YYYY_H-M-S-ms", with day and 1-based month
      padded to two digits and the time fields unpadded. */
  function DateString(m: Moment): string {
    Pad2(m.day) + "-" + Pad2(m.monthIndex + 1) + "-" + NatToString(m.year) + "_" + NatToString(m.hours) + "-"
      + NatToString(m.minutes) + "-" + NatToString(m.seconds) + "-" + NatToString(m.millis)
  }

  /** The six fields of a date string, in order, as splitting it on "-" gives
      them back. */
  function DateFields(m: Moment): seq<string> {
    [Pad2(m.day), Pad2(m.monthIndex + 1), NatToString(m.year) + "_" + NatToString(m.hours),
     NatToString(m.minutes), NatToString(m.seconds), NatToString(m.millis)]
  }

  lemma NoDash(s: string)
    requires AllDigits(s)
    ensures '-' !in s && '_' !in s
  {
    forall k | 0 <= k < |s| ensures s[k] != '-' && s[k] != '_' {
      assert IsDigit(s[k]);
    }
  }

  lemma NoDashAround(a: string, b: string)
    requires AllDigits(a) && AllDigits(b)
    ensures '-' !in a + "_" + b
  {
    NoDash(a);
    NoDash(b);
    var s := a + "_" + b;
    forall k | 0 <= k < |s| ensures s[k] != '-' {
      if k < |a| { assert s[k] == a[k]; }
      else if k > |a| { assert s[k] == b[k - |a| - 1]; }
    }
  }

  /** Joining six fields puts the separator between neighbours. */
  lemma JoinSix(f: seq<string>, sep: string)
    requires |f| == 6
    ensures Join(f, sep) == f[0] + sep + f[1] + sep + f[2] + sep + f[3] + sep + f[4] + sep + f[5]
  {
    assert f[5..] == [f[5]];
    assert Join(f[4..], sep) == f[4] + sep + f[5] by { assert f[4..][1..] == f[5..]; }
    assert Join(f[3..], sep) == f[3] + sep + Join(f[4..], sep) by { assert f[3..][1..] == f[4..]; }
    assert Join(f[2..], sep) == f[2] + sep + Join(f[3..], sep) by { assert f[2..][1..] == f[3..]; }
    assert Join(f[1..], sep) == f[1] + sep + Join(f[2..], sep) by { assert f[1..][1..] == f[2..]; }
  }

  /** No field of a date string holds a "-". */
  lemma DateFieldsNoDash(m: Moment)
    ensures forall k :: 0 <= k < |DateFields(m)| ==> '-' !in DateFields(m)[k]
  {
    var f := DateFields(m);
    PadTwoDigits(m.day);
    PadTwoDigits(m.monthIndex + 1);
    NoDash(f[0]);
    NoDash(f[1]);
    NoDashAround(NatToString(m.year), NatToString(m.hours));
    NoDash(f[3]);
    NoDash(f[4]);
    NoDash(f[5]);
  }

  /** Splitting a date string on "-" recovers its fields; day and month are
      two digits each and read back as the day and the 1-based month. */
  lemma DateStringFields(m: Moment)
    requires ValidMoment(m)
    ensures Split(DateString(m), "-") == DateFields(m)
    ensures |DateFields(m)[0]| == 2 && AllDigits(DateFields(m)[0]) && ParseNat(DateFields(m)[0]) == m.day
    ensures |DateFields(m)[1]| == 2 && AllDigits(DateFields(m)[1]) && ParseNat(DateFields(m)[1]) == m.monthIndex + 1
  {
    var f := DateFields(m);
    JoinSix(f, "-");
    assert Join(f, "-") == DateString(m);
    DateFieldsNoDash(m);
    SplitJoin(f, "-");
    PadTwoDigits(m.day);
    PadTwoDigits(m.monthIndex + 1);
  }

  /** Two moments with the same date string are the same moment: the string
      is a faithful stamp of the time it was taken. */
  lemma DateStringInjective(m1: Moment, m2: Moment)
    requires ValidMoment(m1) && ValidMoment(m2)
    requires DateString(m1) == DateString(m2)
    ensures m1 == m2
  {
    DateStringFields(m1);
    DateStringFields(m2);
    var f1, f2 := DateFields(m1), DateFields(m2);
    assert f1 == f2;
    NoDash(NatToString(m1.year));
    NoDash(NatToString(m1.hours));
    NoDash(NatToString(m2.year));
    NoDash(NatToString(m2.hours));
    var y1 := [NatToString(m1.year), NatToString(m1.hours)];
    var y2 := [NatToString(m2.year), NatToString(m2.hours)];
    assert Join(y1, "_") == f1[2] by { assert y1[1..] == [NatToString(m1.hours)]; }
    assert Join(y2, "_") == f2[2] by { assert y2[1..] == [NatToString(m2.hours)]; }
    SplitJoin(y1, "_");
    SplitJoin(y2, "_");
    assert y1 == y2;
    ParseNatToString(m1.year);
    ParseNatToString(m2.year);
    ParseNatToString(m1.hours);
    ParseNatToString(m2.hours);
    ParseNatToString(m1.minutes);
    ParseNatToString(m2.minutes);
    ParseNatToString(m1.seconds);
    ParseNatToString(m2.seconds);
    ParseNatToString(m1.millis);
    ParseNatToString(m2.millis);
  }

  // ---------------------------------------------------------------------------
  // The multer file name

  /** The temporary file name: the text before the first ".", "_", the date
      string, ".", and the text between the first and second "." — the string
      "undefined" when the name has no ".". */
  function TempFileName(originalName: string, date: string): string {
    var parts := Split(originalName, ".");
    parts[0] + "_" + date + "." + (if |parts| >= 2 then parts[1] else "undefined")
  }

  /** "report.pdf" is stored as "report_<date>.pdf". */
  lemma TempFileNameOneDot(base: string, ext: string, date: string)
    requires '.' !in base && '.' !in ext
    ensures TempFileName(base + "." + ext, date) == base + "_" + date + "." + ext
  {
    var parts := [base, ext];
    assert Join(parts, ".") == base + "." + ext by { assert parts[1..] == [ext]; }
    SplitJoin(parts, ".");
  }

  /** A name without "." gets the extension "undefined". */
  lemma TempFileNameNoDot(name: string, date: string)
    requires '.' !in name
    ensures TempFileName(name, date) == name + "_" + date + ".undefined"
  {
    NoCharNoMatch(name, ".");
    SplitNone(name, ".");
  }

  /** "archive.tar.gz" is stored as "archive_<date>.tar": everything after the
      second "." is dropped. */
  lemma TempFileNameDropsTail(base: string, ext: string, more: string, date: string)
    requires '.' !in base && '.' !in ext && '.' !in more
    ensures TempFileName(base + "." + ext + "." + more, date) == base + "_" + date + "." + ext
  {
    var parts := [base, ext, more];
    assert Join(parts, ".") == base + "." + ext + "." + more by {
      assert parts[1..] == [ext, more];
      assert parts[1..][1..] == [more];
      assert Join(parts[1..], ".") == ext + "." + more;
      assert Join(parts, ".") == base + "." + (ext + "." + more);
    }
    SplitJoin(parts, ".");
  }

  // ---------------------------------------------------------------------------
  // Parameter checks

  const FileMissing: Failure := Custom(Some(BadRequest), "File not found")
  const UserIdMissing: Failure := Custom(Some(BadRequest), "UserId not provided")
  const UserIdRequired: Failure := Custom(Some(BadRequest), "userId is required")
  const FileIdRequired: Failure := Custom(Some(BadRequest), "FileId is required")
  const FileIdAndCodeRequired: Failure := Custom(Some(BadRequest), "fileId and uniqueCode are required")

  /** What a route does with its request: pass an error to the error
      middleware, or call the controller with these arguments. */
  datatype Check<T> = Refuse(error: Failure) | Call(args: T)

  /** A path parameter that is empty, or the text "undefined" or "null", counts
      as missing. */
  predicate MissingParam(p: string) {
    p == "" || p == "undefined" || p == "null"
  }

  /** `POST /upload`: the file first, then the token's `id`. */
  function UploadCheck(file: Option<UploadedFile>, user: Claims): (r: Check<(UploadedFile, JsValue)>)
    ensures file.None? ==> r == Refuse(FileMissing)
    ensures file.Some? && !Truthy(user.id) ==> r == Refuse(UserIdMissing)
    ensures r.Call? <==> file.Some? && Truthy(user.id)
    ensures r.Call? ==> r.args == (file.value, user.id)
  {
    if file.None? then Refuse(FileMissing)
    else if !Truthy(user.id) then Refuse(UserIdMissing)
    else Call((file.value, user.id))
  }

  /** `GET /:userId`: only the path parameter is checked, and it, not the
      token's `id`, names whose files are listed. */
  function ListCheck(userId: string, user: Claims): (r: Check<string>)
    ensures MissingParam(userId) <==> r == Refuse(UserIdRequired)
    ensures r.Call? <==> !MissingParam(userId)
    ensures r.Call? ==> r.args == userId
  {
    if MissingParam(userId) then Refuse(UserIdRequired) else Call(userId)
  }

  /** Any holder of a valid token may list any user's files: the outcome does
      not depend on whose token it is. */
  lemma ListIgnoresToken(userId: string, a: Claims, b: Claims)
    ensures ListCheck(userId, a) == ListCheck(userId, b)
  {
  }

  /** `DELETE /:fileId`: the path parameter first, then the token's `id`. */
  function DeleteCheck(fileId: string, user: Claims): (r: Check<(string, JsValue)>)
    ensures MissingParam(fileId) ==> r == Refuse(FileIdRequired)
    ensures !MissingParam(fileId) && !Truthy(user.id) ==> r == Refuse(UserIdMissing)
    ensures r.Call? <==> !MissingParam(fileId) && Truthy(user.id)
    ensures r.Call? ==> r.args == (fileId, user.id)
  {
    if MissingParam(fileId) then Refuse(FileIdRequired)
    else if !Truthy(user.id) then Refuse(UserIdMissing)
    else Call((fileId, user.id))
  }

  /** `POST /verify`: both body fields first, then the token's `id`. */
  function VerifyCheck(fileId: JsValue, uniqueCode: JsValue, user: Claims): (r: Check<(JsValue, JsValue, JsValue)>)
    ensures !Truthy(fileId) || !Truthy(uniqueCode) ==> r == Refuse(FileIdAndCodeRequired)
    ensures Truthy(fileId) && Truthy(uniqueCode) && !Truthy(user.id) ==> r == Refuse(UserIdMissing)
    ensures r.Call? <==> Truthy(fileId) && Truthy(uniqueCode) && Truthy(user.id)
    ensures r.Call? ==> r.args == (fileId, uniqueCode, user.id)
  {
    if !Truthy(fileId) || !Truthy(uniqueCode) then Refuse(FileIdAndCodeRequired)
    else if !Truthy(user.id) then Refuse(UserIdMissing)
    else Call((fileId, uniqueCode, user.id))
  }

  /** Every refusal a route makes reaches the client as 400 with its own
      message. */
  lemma RefusalsAre400(e: Failure)
    requires e in {FileMissing, UserIdMissing, UserIdRequired, FileIdRequired, FileIdAndCodeRequired}
    ensures HandleError(e).httpStatus == 400 && HandleError(e).body.message == e.customMessage
  {
  }
}
