/** The file controller of the server: which uploads multer lets through,
    the name a stored file gets, the clean-up of an old avatar, the filter
    and `format` of the file listing, and the guard order and defaults of
    the upload, listing and delete handlers. The file table and the user
    record are state the handlers change; authentication and the user
    lookup are inputs, and so are `Date.now()` and `uuidv4()`. */
module FileUpload {
  import opened Text
  import opened Wrappers
  import opened JsValues

  // ---------------------------------------------------------------------
  // What multer accepts

  /** The MIME types an upload may have. */
  const AllowedTypes: seq<string> := [
    "application/pdf",
    "image/jpeg",
    "image/jpg",
    "image/png",
    "image/gif",
    "application/msword",
    "application/vnd.openxmlformats-officedocument.wordprocessingml.document",
    "application/vnd.ms-powerpoint",
    "application/vnd.openxmlformats-officedocument.presentationml.presentation",
    "text/plain",
    "application/zip"]

  const InvalidFileType := "Invalid file type"

  /** The largest upload, 50 MiB. */
  const MaxFileSize: nat := 50 * 1024 * 1024

  /** multer's verdict: a refused type is an error naming it; a type that
      passes may still be cut off by the size limit. */
  datatype Verdict = Accept | Reject(error: string) | TooLarge

  /** `fileFilter`: only the listed types, by exact match. */
  function FileFilter(mimetype: string): (r: Verdict)
    ensures r != TooLarge
    ensures r == Accept <==> mimetype in AllowedTypes
    ensures r != Accept ==> r == Reject(InvalidFileType)
  {
    if mimetype in AllowedTypes then Accept else Reject(InvalidFileType)
  }

  /** The filter runs on the announced type first; the size limit applies to
      what is then received. */
  function Admit(mimetype: string, size: nat): (r: Verdict)
    ensures r == Accept <==> mimetype in AllowedTypes && size <= MaxFileSize
    ensures mimetype !in AllowedTypes ==> r == Reject(InvalidFileType)
  {
    match FileFilter(mimetype)
    case Accept => if size <= MaxFileSize then Accept else TooLarge
    case other => other
  }

  // ---------------------------------------------------------------------
  // Stored file names: `path.extname`, `path.basename` and `generateFileName`

  /** `p` without the '/' characters at its end. */
  function DropTrailingSlashes(p: string): (r: string)
    ensures |r| <= |p| && r == p[..|r|]
    ensures r == [] || r[|r| - 1] != '/'
    ensures '/' !in p ==> r == p
  {
    if p != [] && p[|p| - 1] == '/' then DropTrailingSlashes(p[..|p| - 1]) else p
  }

  /** What `DropTrailingSlashes` cuts off is nothing but '/'. */
  lemma {:induction false} DroppedAreSlashes(p: string)
    ensures forall i :: |DropTrailingSlashes(p)| <= i < |p| ==> p[i] == '/'
    decreases |p|
  {
    if p != [] && p[|p| - 1] == '/' {
      DroppedAreSlashes(p[..|p| - 1]);
    }
  }

  /** `path.basename(p)`: the last '/'-separated segment, trailing '/'
      ignored. */
  function Basename(p: string): (r: string)
    ensures '/' !in r
  {
    LastPiece(DropTrailingSlashes(p), '/')
  }

  /** The base name is what follows the last '/' once the trailing ones are
      dropped, or the whole of it when there is no '/'. */
  lemma BasenameAfterLastSlash(p: string)
    ensures var q := DropTrailingSlashes(p);
      match LastIndex(q, '/')
      case None => Basename(p) == q
      case Some(k) => Basename(p) == q[k + 1..]
  {
    var q := DropTrailingSlashes(p);
    match LastIndex(q, '/')
    case None =>
      SplitWithoutSeparator(q, '/');
    case Some(k) =>
      assert q == q[..k] + ['/'] + q[k + 1..];
      LastPieceAfterSeparator(q[..k], '/', q[k + 1..]);
  }

  /** The position of the last `c` in `s`. */
  function LastIndex(s: string, c: char): (r: Option<nat>)
    ensures r.None? <==> c !in s
    ensures r.Some? ==> r.value < |s| && s[r.value] == c && c !in s[r.value + 1..]
  {
    if s == [] then None
    else if s[|s| - 1] == c then Some(|s| - 1)
    else
      var r := LastIndex(s[..|s| - 1], c);
      if r.Some? then
        assert s[r.value + 1..] == s[..|s| - 1][r.value + 1..] + [s[|s| - 1]];
        r
      else
        assert s == s[..|s| - 1] + [s[|s| - 1]];
        r
  }

  /** The extension of a base name `b`: from its last '.' on; empty when it
      has no '.', when that '.' is its first character, and for "..". */
  function ExtOf(b: string): (r: string)
    ensures r == [] || r[0] == '.'
    ensures |r| <= |b| && b[|b| - |r|..] == r
    ensures r != [] ==> |r| < |b| && '.' !in r[1..]
  {
    match LastIndex(b, '.')
    case None => ""
    case Some(d) => if d == 0 || b == ".." then "" else b[d..]
  }

  /** A base name has no extension exactly when it has no '.' after its
      first character, or is "..". */
  lemma NoExtension(b: string)
    ensures ExtOf(b) == [] <==> b == [] || '.' !in b[1..] || b == ".."
  {
    match LastIndex(b, '.')
    case None =>
    case Some(d) =>
      if d != 0 && b != ".." {
        assert b[1..][d - 1] == '.';
      }
  }

  /** `path.extname(p)`. */
  function Extname(p: string): string {
    ExtOf(Basename(p))
  }

  /** `path.basename(p, path.extname(p))`: the base name with the extension
      cut off. */
  function Stem(p: string): string {
    var b := Basename(p);
    b[..|b| - |Extname(p)|]
  }

  /** The base name is the stem followed by the extension. */
  lemma StemThenExtension(p: string)
    ensures Stem(p) + Extname(p) == Basename(p)
    ensures Extname(p) != "" ==> Stem(p) != ""
  {
    var b := Basename(p);
    assert b[..|b| - |Extname(p)|] + b[|b| - |Extname(p)|..] == b;
  }

  /** `generateFileName`: stem, clock, random id and extension. */
  function GenerateFileName(originalName: string, now: nat, uuid: string): (r: string)
    ensures StartsWith(r, Stem(originalName) + "_")
    ensures |Extname(originalName)| <= |r| && r[|r| - |Extname(originalName)|..] == Extname(originalName)
  {
    var stem, ext := Stem(originalName), Extname(originalName);
    var m := Middle(now, uuid);
    var r := stem + m + ext;
    assert r[..|stem| + 1] == stem + [m[0]];
    r
  }

  /** What `generateFileName` puts between the stem and the extension. */
  function Middle(now: nat, uuid: string): (r: string)
    ensures r != "" && r[0] == '_' && ('.' !in uuid ==> '.' !in r) && ('/' !in uuid ==> '/' !in r)
  {
    PlainDigits(now);
    "_" + NatStr(now) + "_" + uuid
  }

  lemma {:induction false} LastIndexAfter(a: string, b: string, c: char)
    requires c !in b
    ensures LastIndex(a + b, c) == LastIndex(a, c)
    decreases |b|
  {
    if b != [] {
      assert (a + b)[..|a + b| - 1] == a + b[..|b| - 1];
      LastIndexAfter(a, b[..|b| - 1], c);
    } else {
      assert a + b == a;
    }
  }

  lemma LastIndexAt(s: string, c: char, d: nat)
    requires d < |s| && s[d] == c && c !in s[d + 1..]
    ensures LastIndex(s, c) == Some(d)
  {
    assert s[d] in s;
  }

  /** Decimal digits hold none of the characters a file name is cut at. */
  lemma PlainDigits(n: nat)
    ensures '/' !in NatStr(n) && '.' !in NatStr(n) && '_' !in NatStr(n)
  {
    var s := NatStr(n);
    assert forall i :: 0 <= i < |s| ==> s[i] != '/' && s[i] != '.' && s[i] != '_';
  }

  /** A generated name holds no '/' when the random id holds none, so it is
      its own base name. */
  lemma GeneratedBasename(originalName: string, now: nat, uuid: string)
    requires '/' !in uuid
    ensures Basename(GenerateFileName(originalName, now, uuid)) == GenerateFileName(originalName, now, uuid)
  {
    var b, stem, ext := Basename(originalName), Stem(originalName), Extname(originalName);
    StemThenExtension(originalName);
    assert '/' !in stem && '/' !in ext by {
      assert b == stem + ext;
    }
    SplitWithoutSeparator(GenerateFileName(originalName, now, uuid), '/');
  }

  /** The stored name keeps the uploaded file's extension, which both ends
      it and is what `path.extname` reads from it again; the one exception
      is a file named "..", whose stored name gains an extension (see
      DotDotGainsExtension). */
  lemma GeneratedNameKeepsExtension(originalName: string, now: nat, uuid: string)
    requires '/' !in uuid && '.' !in uuid
    requires Basename(originalName) != ".."
    ensures Extname(GenerateFileName(originalName, now, uuid)) == Extname(originalName)
  {
    StemThenExtension(originalName);
    GeneratedBasename(originalName, now, uuid);
    ExtensionAfterInsert(Stem(originalName), Middle(now, uuid), Extname(originalName));
  }

  /** Text without a '.' put between a base name's stem and extension leaves
      the extension as it was. */
  lemma ExtensionAfterInsert(stem: string, middle: string, ext: string)
    requires ExtOf(stem + ext) == ext && stem + ext != ".."
    requires '.' !in middle && middle != ""
    ensures ExtOf(stem + middle + ext) == ext
  {
    var b, r := stem + ext, stem + middle + ext;
    if ext != "" {
      var d := |stem + middle|;
      assert r[d..] == ext && r[d + 1..] == ext[1..];
      LastIndexAt(r, '.', d);
      assert r != "..";
    } else {
      assert b == stem && r == stem + middle;
      LastIndexAfter(stem, middle, '.');
      match LastIndex(b, '.')
      case None =>
      case Some(d) =>
        assert d == 0;
        assert r != "..";
    }
  }

  /** A file named ".." has no extension, yet its stored name has one:
      everything after its second '.'. */
  lemma DotDotGainsExtension(now: nat, uuid: string)
    requires '/' !in uuid && '.' !in uuid
    ensures Extname("..") == ""
    ensures Extname(GenerateFileName("..", now, uuid)) == "." + Middle(now, uuid)
  {
    SplitWithoutSeparator("..", '/');
    assert Basename("..") == "..";
    LastIndexAt("..", '.', 1);
    var r := GenerateFileName("..", now, uuid);
    assert Stem("..") == "..";
    assert r == ".." + Middle(now, uuid);
    GeneratedBasename("..", now, uuid);
    DotDotThen(Middle(now, uuid));
  }

  /** The extension of a base name that is ".." followed by text without a
      '.' is the second '.' and that text. */
  lemma DotDotThen(m: string)
    requires m != [] && '.' !in m
    ensures ExtOf(".." + m) == "." + m
  {
    var b := ".." + m;
    assert b[2..] == m;
    LastIndexAt(b, '.', 1);
    assert b[1..] == "." + m;
  }

  /** Two uploads of the same file get different names whenever the clock or
      the random id differs. */
  lemma GeneratedNamesDiffer(originalName: string, now1: nat, uuid1: string, now2: nat, uuid2: string)
    requires now1 != now2 || uuid1 != uuid2
    ensures GenerateFileName(originalName, now1, uuid1) != GenerateFileName(originalName, now2, uuid2)
  {
    var m1, m2 := Middle(now1, uuid1), Middle(now2, uuid2);
    if m1 == m2 {
      assert m1[1..] == NatStr(now1) + "_" + uuid1;
      assert m2[1..] == NatStr(now2) + "_" + uuid2;
      ClockThenId(now1, uuid1, now2, uuid2);
    }
    CancelEnds(Stem(originalName), m1, m2, Extname(originalName));
  }

  lemma CancelEnds(p: string, x: string, y: string, q: string)
    requires x != y
    ensures p + x + q != p + y + q
  {
    if |x| == |y| {
      assert x == (p + x + q)[|p|..|p| + |x|];
      assert y == (p + y + q)[|p|..|p| + |y|];
    }
  }

  /** The clock's digits run up to the first '_', so the text after the
      stem gives back both the clock and the random id. */
  lemma ClockThenId(now1: nat, uuid1: string, now2: nat, uuid2: string)
    requires NatStr(now1) + "_" + uuid1 == NatStr(now2) + "_" + uuid2
    ensures now1 == now2 && uuid1 == uuid2
  {
    var n1, n2 := NatStr(now1), NatStr(now2);
    var m := n1 + "_" + uuid1;
    PlainDigits(now1);
    PlainDigits(now2);
    assert m[|n1|] == '_' && m[|n2|] == '_';
    assert forall j :: 0 <= j < |n1| ==> m[j] == n1[j];
    assert forall j :: 0 <= j < |n2| ==> m[j] == n2[j];
    assert |n1| == |n2|;
    assert n1 == m[..|n1|] && n2 == m[..|n2|];
    assert uuid1 == m[|n1| + 1..] && uuid2 == m[|n2| + 1..];
    NatStrDigits(now1);
    NatStrDigits(now2);
  }

  // ---------------------------------------------------------------------
  // File URLs and the old avatar

  /** The path every stored file is served under. */
  const FileRoute := "/api/mysql-upload/file/"

  /** `${req.protocol}://${req.get('host')}/api/mysql-upload/file/${id}`. */
  function FileUrl(protocol: string, host: string, id: nat): string {
    protocol + "://" + host + FileRoute + NatStr(id)
  }

  /** The id of the avatar to delete before a new one is stored: the last
      '/' piece of the avatar URL, when it is one of this server's file
      URLs; an avatar held elsewhere (or none, "") is left alone. */
  function OldAvatarId(avatar: string): (r: Option<string>)
    ensures r.Some? <==> Contains(avatar, FileRoute)
    ensures r.Some? ==> '/' !in r.value
  {
    if avatar != "" && Contains(avatar, FileRoute) then Some(LastPiece(avatar, '/')) else None
  }

  /** The avatar URL this server stores reads back as the stored file's id. */
  lemma OldAvatarIdOfFileUrl(protocol: string, host: string, id: nat)
    ensures OldAvatarId(FileUrl(protocol, host, id)) == Some(NatStr(id))
  {
    var front := protocol + "://" + host;
    var n := NatStr(id);
    assert FileUrl(protocol, host, id) == front + FileRoute + n;
    ContainsInside(front, FileRoute, n);
    PlainDigits(id);
    assert front + FileRoute + n == (front + "/api/mysql-upload/file") + ['/'] + n;
    LastPieceAfterSeparator(front + "/api/mysql-upload/file", '/', n);
  }

  // ---------------------------------------------------------------------
  // The file listing's `format`

  /** `mimeType.split('/')[1] || 'unknown'`. */
  function Format(mimeType: string): (r: string)
    ensures r != ""
    ensures '/' !in mimeType ==> r == "unknown"
  {
    var ps := Split(mimeType, '/');
    if '/' !in mimeType then
      SplitWithoutSeparator(mimeType, '/');
      "unknown"
    else if |ps| > 1 && ps[1] != "" then ps[1]
    else "unknown"
  }

  /** A type "top/sub" has the format "sub"; "top/" has none. */
  lemma FormatOfType(top: string, sub: string)
    requires '/' !in top && '/' !in sub
    ensures Format(top + "/" + sub) == if sub == "" then "unknown" else sub
  {
    assert top + "/" + sub == top + ['/'] + sub;
    SplitAround(top, '/', sub);
    SplitWithoutSeparator(top, '/');
    SplitWithoutSeparator(sub, '/');
  }

  // ---------------------------------------------------------------------
  // The file table

  /** A row of the file table. `description` is `None` where the handler
      gives none and the table's own default applies. */
  datatype FileRow = FileRow(
    id: nat, originalName: string, fileName: string, mimeType: string, size: nat,
    fileType: string, title: string, description: Option<string>,
    uploadedBy: string, isPublic: bool, createdAt: nat)

  /** What multer hands a handler: the client's file name, its type and its
      size. The content is not modelled. */
  datatype Upload = Upload(originalName: string, mimeType: string, size: nat)

  /** A column of a row as a `where` clause compares it; the id as the
      decimal text a URL carries. */
  function Column(row: FileRow, name: string): Option<string> {
    if name == "id" then Some(NatStr(row.id))
    else if name == "uploadedBy" then Some(row.uploadedBy)
    else if name == "fileType" then Some(row.fileType)
    else None
  }

  /** A row satisfies a `where` clause of equalities. */
  predicate Matches(where: map<string, string>, row: FileRow) {
    forall k :: k in where ==> Column(row, k) == Some(where[k])
  }

  /** `File.findAll({ where })`, in table order. */
  function Matching(rows: seq<FileRow>, where: map<string, string>): (r: seq<FileRow>)
    ensures forall row :: row in r <==> row in rows && Matches(where, row)
    ensures |r| <= |rows|
  {
    if rows == [] then []
    else (if Matches(where, rows[0]) then [rows[0]] else []) + Matching(rows[1..], where)
  }

  /** The query works row by row: on a concatenation it finds the matches
      of each part, in order. */
  lemma {:induction false} MatchingConcat(a: seq<FileRow>, b: seq<FileRow>, where: map<string, string>)
    ensures Matching(a + b, where) == Matching(a, where) + Matching(b, where)
    decreases |a|
  {
    if a == [] {
      assert [] + b == b;
    } else {
      assert (a + b)[1..] == a[1..] + b;
      MatchingConcat(a[1..], b, where);
    }
  }

  /** A single row is found exactly when it matches. */
  lemma MatchingSingle(row: FileRow, where: map<string, string>)
    ensures Matching([row], where) == if Matches(where, row) then [row] else []
  {
    assert [row][1..] == [];
  }

  /** `File.findOne({ where })`: the first row that matches. */
  function FindFirst(rows: seq<FileRow>, where: map<string, string>): (r: Option<FileRow>)
    ensures r.None? <==> forall row :: row in rows ==> !Matches(where, row)
    ensures r.Some? ==> r.value in rows && Matches(where, r.value)
  {
    if rows == [] then None
    else if Matches(where, rows[0]) then Some(rows[0])
    else FindFirst(rows[1..], where)
  }

  /** The rows `File.destroy({ where: { id } })` leaves. */
  function WithoutId(rows: seq<FileRow>, id: string): (r: seq<FileRow>)
    ensures forall row :: row in r <==> row in rows && NatStr(row.id) != id
    ensures |r| <= |rows|
  {
    if rows == [] then []
    else (if NatStr(rows[0].id) == id then [] else [rows[0]]) + WithoutId(rows[1..], id)
  }

  /** Destroying works row by row: on a concatenation it leaves what it
      leaves of each part, in order. */
  lemma {:induction false} WithoutIdConcat(a: seq<FileRow>, b: seq<FileRow>, id: string)
    ensures WithoutId(a + b, id) == WithoutId(a, id) + WithoutId(b, id)
    decreases |a|
  {
    if a == [] {
      assert [] + b == b;
    } else {
      assert (a + b)[1..] == a[1..] + b;
      WithoutIdConcat(a[1..], b, id);
    }
  }

  /** A single row is destroyed exactly when it has the id. */
  lemma WithoutIdSingle(row: FileRow, id: string)
    ensures WithoutId([row], id) == if NatStr(row.id) == id then [] else [row]
  {
    assert [row][1..] == [];
  }

  /** No two rows of the table share an id. */
  predicate DistinctIds(rows: seq<FileRow>)
  {
    forall i, j :: 0 <= i < j < |rows| ==> rows[i].id != rows[j].id
  }

  /** The rows after the first keep their ids distinct, and none of them
      has the first one's. */
  lemma DistinctTail(rows: seq<FileRow>)
    requires DistinctIds(rows) && rows != []
    ensures DistinctIds(rows[1..])
    ensures forall row :: row in rows[1..] ==> row.id != rows[0].id
  {
    var tail := rows[1..];
    forall i, j | 0 <= i < j < |tail| ensures tail[i].id != tail[j].id {
      assert tail[i] == rows[i + 1] && tail[j] == rows[j + 1];
    }
    forall row | row in tail ensures row.id != rows[0].id {
      var k :| 0 <= k < |tail| && tail[k] == row;
      assert row == rows[k + 1];
    }
  }

  /** A row put in front of rows with other ids keeps the ids distinct. */
  lemma DistinctCons(head: FileRow, rest: seq<FileRow>)
    requires DistinctIds(rest)
    requires forall row :: row in rest ==> row.id != head.id
    ensures DistinctIds([head] + rest)
  {
    var r := [head] + rest;
    forall i, j | 0 <= i < j < |r| ensures r[i].id != r[j].id {
      if i == 0 {
        assert r[j] == rest[j - 1] && r[j] in rest;
      } else {
        assert r[i] == rest[i - 1] && r[j] == rest[j - 1];
      }
    }
  }

  /** Destroying rows keeps the ids of the rest distinct. */
  lemma {:induction false} WithoutIdDistinct(rows: seq<FileRow>, id: string)
    requires DistinctIds(rows)
    ensures DistinctIds(WithoutId(rows, id))
    decreases |rows|
  {
    if rows != [] {
      DistinctTail(rows);
      WithoutIdDistinct(rows[1..], id);
      var rest := WithoutId(rows[1..], id);
      if NatStr(rows[0].id) == id {
        assert WithoutId(rows, id) == [] + rest;
        assert [] + rest == rest;
      } else {
        assert WithoutId(rows, id) == [rows[0]] + rest;
        DistinctCons(rows[0], rest);
      }
    }
  }

  /** A table none of whose ids reads as `id` loses nothing. */
  lemma {:induction false} WithoutAbsentId(rows: seq<FileRow>, id: string)
    requires forall row :: row in rows ==> NatStr(row.id) != id
    ensures WithoutId(rows, id) == rows
    decreases |rows|
  {
    if rows != [] {
      assert forall row :: row in rows[1..] ==> row in rows;
      WithoutAbsentId(rows[1..], id);
      assert rows == [rows[0]] + rows[1..];
    }
  }

  /** With distinct ids, destroying the id of one row removes that row
      and no other. */
  lemma WithoutIdAt(rows: seq<FileRow>, i: nat)
    requires DistinctIds(rows) && i < |rows|
    ensures WithoutId(rows, NatStr(rows[i].id)) == rows[..i] + rows[i + 1..]
  {
    var id := NatStr(rows[i].id);
    var a, b := rows[..i], rows[i + 1..];
    assert rows == (a + [rows[i]]) + b;
    forall row | row in a ensures NatStr(row.id) != id {
      var k :| 0 <= k < |a| && a[k] == row;
      assert row == rows[k];
      NatStrDigits(row.id);
      NatStrDigits(rows[i].id);
    }
    forall row | row in b ensures NatStr(row.id) != id {
      var k :| 0 <= k < |b| && b[k] == row;
      assert row == rows[i + 1 + k];
      NatStrDigits(row.id);
      NatStrDigits(rows[i].id);
    }
    WithoutIdConcat(a + [rows[i]], b, id);
    WithoutIdConcat(a, [rows[i]], id);
    WithoutIdSingle(rows[i], id);
    WithoutAbsentId(a, id);
    WithoutAbsentId(b, id);
    assert WithoutId(a + [rows[i]], id) == a;
  }

  /** The file table; ids are handed out in increasing order. */
  class FileStore {
    var rows: seq<FileRow>
    var nextId: nat

    /** Every id is below the next one, and no two rows share one. */
    ghost predicate Valid()
      reads this
    {
      && (forall row :: row in rows ==> row.id < nextId)
      && DistinctIds(rows)
    }

    constructor ()
      ensures Valid() && rows == [] && nextId == 1
    {
      rows, nextId := [], 1;
    }

    /** `File.create(...)`: the row gets the next id and the clock's time. */
    method Create(file: Upload, fileName: string, fileType: string, title: string,
                  description: Option<string>, uploadedBy: string, now: nat)
      returns (row: FileRow)
      requires Valid()
      modifies this
      ensures Valid()
      ensures row == FileRow(old(nextId), file.originalName, fileName, file.mimeType, file.size,
                             fileType, title, description, uploadedBy, true, now)
      ensures rows == old(rows) + [row] && nextId == old(nextId) + 1
    {
      row := FileRow(nextId, file.originalName, fileName, file.mimeType, file.size,
                     fileType, title, description, uploadedBy, true, now);
      rows := rows + [row];
      nextId := nextId + 1;
    }

    /** `File.destroy({ where: { id } })`. */
    method DestroyWhereId(id: string)
      requires Valid()
      modifies this
      ensures Valid()
      ensures rows == WithoutId(old(rows), id) && nextId == old(nextId)
    {
      WithoutIdDistinct(rows, id);
      rows := WithoutId(rows, id);
    }
  }

  /** The user record the upload handlers change. */
  class UserDoc {
    /** `user._id.toString()`. */
    const objectId: string
    /** The certificate URLs, oldest first. */
    var certificates: seq<string>
    /** The avatar URL, "" when there is none. */
    var avatar: string

    constructor (objectId: string, certificates: seq<string>, avatar: string)
      ensures this.objectId == objectId && this.certificates == certificates && this.avatar == avatar
    {
      this.objectId, this.certificates, this.avatar := objectId, certificates, avatar;
    }
  }

  // ---------------------------------------------------------------------
  // Handlers. `userId` is "" when the request is not signed in; `user` is
  // what the lookup by that id found (`null` for none). A body field that
  // is absent reads as "".

  const Unauthorized := Reply(401, "Unauthorized")
  const NoFile := Reply(400, "No file uploaded")
  const NoUser := Reply(404, "User not found")

  /** The row `uploadResourceMySQL` stores: the title defaults to the file's
      own name, and the description is always given. */
  function ResourceRow(id: nat, file: Upload, title: string, description: string,
                       uploadedBy: string, now: nat, uuid: string): (row: FileRow)
    ensures row.title == (if title != "" then title else file.originalName)
    ensures row.title != "" || file.originalName == ""
    ensures row.description == Some(description)
    ensures row.fileType == "resource" && row.isPublic && row.uploadedBy == uploadedBy
    ensures row.originalName == file.originalName && row.createdAt == now && row.id == id
    ensures row.fileName == GenerateFileName(file.originalName, now, uuid)
    ensures row.mimeType == file.mimeType && row.size == file.size
  {
    FileRow(id, file.originalName, GenerateFileName(file.originalName, now, uuid), file.mimeType, file.size,
            "resource", if title != "" then title else file.originalName, Some(description),
            uploadedBy, true, now)
  }

  /** `uploadResourceMySQL`. The `type` it echoes defaults to "document"
      only when absent. */
  method UploadResource(store: FileStore, userId: string, title: string, description: string,
                        kind: Option<string>, file: Option<Upload>, user: UserDoc?, now: nat, uuid: string)
    returns (reply: Reply, saved: Option<FileRow>, shownType: string)
    requires store.Valid()
    modifies store
    ensures store.Valid()
    ensures shownType == kind.GetOr("document")
    ensures userId == "" ==> reply == Unauthorized && saved.None? && unchanged(store)
    ensures userId != "" && file.None? ==> reply == NoFile && saved.None? && unchanged(store)
    ensures userId != "" && file.Some? && user == null ==> reply == NoUser && saved.None? && unchanged(store)
    ensures userId != "" && file.Some? && user != null ==>
      && reply == Reply(200, "Resource uploaded successfully")
      && saved == Some(ResourceRow(old(store.nextId), file.value, title, description, user.objectId, now, uuid))
      && store.rows == old(store.rows) + [saved.value] && store.nextId == old(store.nextId) + 1
  {
    shownType := kind.GetOr("document");
    if userId == "" {
      return Unauthorized, None, shownType;
    }
    if file.None? {
      return NoFile, None, shownType;
    }
    if user == null {
      return NoUser, None, shownType;
    }
    var f := file.value;
    var fileName := GenerateFileName(f.originalName, now, uuid);
    var row := store.Create(f, fileName, "resource", if title != "" then title else f.originalName,
                            Some(description), user.objectId, now);
    reply, saved := Reply(200, "Resource uploaded successfully"), Some(row);
  }

  /** `uploadCertificateMySQL`: the row is titled with the file's name, and
      its full URL is appended to the user's certificates. */
  method UploadCertificate(store: FileStore, userId: string, file: Option<Upload>, user: UserDoc?,
                           protocol: string, host: string, now: nat, uuid: string)
    returns (reply: Reply, saved: Option<FileRow>)
    requires store.Valid()
    modifies store, user
    ensures store.Valid()
    ensures userId == "" ==>
      reply == Unauthorized && saved.None? && unchanged(store) && (user != null ==> unchanged(user))
    ensures userId != "" && file.None? ==>
      reply == NoFile && saved.None? && unchanged(store) && (user != null ==> unchanged(user))
    ensures userId != "" && file.Some? && user == null ==> reply == NoUser && saved.None? && unchanged(store)
    ensures userId != "" && file.Some? && user != null ==>
      && reply == Reply(200, "Certificate uploaded successfully")
      && saved == Some(FileRow(old(store.nextId), file.value.originalName,
                               GenerateFileName(file.value.originalName, now, uuid), file.value.mimeType,
                               file.value.size, "certificate", file.value.originalName, None,
                               user.objectId, true, now))
      && store.rows == old(store.rows) + [saved.value] && store.nextId == old(store.nextId) + 1
      && user.certificates == old(user.certificates) + [FileUrl(protocol, host, saved.value.id)]
      && user.avatar == old(user.avatar)
  {
    if userId == "" {
      return Unauthorized, None;
    }
    if file.None? {
      return NoFile, None;
    }
    if user == null {
      return NoUser, None;
    }
    var f := file.value;
    var fileName := GenerateFileName(f.originalName, now, uuid);
    var row := store.Create(f, fileName, "certificate", f.originalName, None, user.objectId, now);
    user.certificates := user.certificates + [FileUrl(protocol, host, row.id)];
    reply, saved := Reply(200, "Certificate uploaded successfully"), Some(row);
  }

  /** The rows left once the avatar `avatar` has been cleaned up. */
  function AfterAvatarCleanUp(rows: seq<FileRow>, avatar: string): seq<FileRow> {
    match OldAvatarId(avatar)
    case None => rows
    case Some(id) => WithoutId(rows, id)
  }

  /** `uploadAvatarMySQL`: a previous avatar served by this server is
      deleted first (whoever uploaded it), then the new file is stored and
      the user's avatar points at it. */
  method UploadAvatar(store: FileStore, userId: string, file: Option<Upload>, user: UserDoc?,
                      protocol: string, host: string, now: nat, uuid: string)
    returns (reply: Reply, saved: Option<FileRow>)
    requires store.Valid()
    modifies store, user
    ensures store.Valid()
    ensures userId == "" ==>
      reply == Unauthorized && saved.None? && unchanged(store) && (user != null ==> unchanged(user))
    ensures userId != "" && file.None? ==>
      reply == NoFile && saved.None? && unchanged(store) && (user != null ==> unchanged(user))
    ensures userId != "" && file.Some? && user == null ==> reply == NoUser && saved.None? && unchanged(store)
    ensures userId != "" && file.Some? && user != null ==>
      && reply == Reply(200, "Avatar uploaded successfully")
      && saved == Some(FileRow(old(store.nextId), file.value.originalName,
                               GenerateFileName(file.value.originalName, now, uuid), file.value.mimeType,
                               file.value.size, "avatar", "Profile Avatar", None, user.objectId, true, now))
      && store.rows == AfterAvatarCleanUp(old(store.rows), old(user.avatar)) + [saved.value]
      && store.nextId == old(store.nextId) + 1
      && user.avatar == FileUrl(protocol, host, saved.value.id)
      && user.certificates == old(user.certificates)
  {
    if userId == "" {
      return Unauthorized, None;
    }
    if file.None? {
      return NoFile, None;
    }
    if user == null {
      return NoUser, None;
    }
    var oldId := OldAvatarId(user.avatar);
    if oldId.Some? {
      store.DestroyWhereId(oldId.value);
    }
    var f := file.value;
    var fileName := GenerateFileName(f.originalName, now, uuid);
    var row := store.Create(f, fileName, "avatar", "Profile Avatar", None, user.objectId, now);
    user.avatar := FileUrl(protocol, host, row.id);
    reply, saved := Reply(200, "Avatar uploaded successfully"), Some(row);
  }

  /** A listed file: the columns the query selects, with the file's URLs,
      upload time and `format`. Who uploaded it and whether it is public
      are not among the selected columns. */
  datatype Listed = Listed(id: nat, originalName: string, fileName: string, mimeType: string, size: nat,
                           fileType: string, title: string, description: Option<string>, createdAt: nat,
                           url: string, downloadUrl: string, previewUrl: string, uploadedAt: nat,
                           format: string)

  function ListingOf(row: FileRow, protocol: string, host: string): Listed {
    Listed(row.id, row.originalName, row.fileName, row.mimeType, row.size, row.fileType, row.title,
           row.description, row.createdAt, FileRoute + NatStr(row.id), FileUrl(protocol, host, row.id),
           FileUrl(protocol, host, row.id), row.createdAt, Format(row.mimeType))
  }

  /** The listings of `rows`, in their order. */
  function Listings(rows: seq<FileRow>, protocol: string, host: string): (r: seq<Listed>)
    ensures |r| == |rows|
    ensures forall i :: 0 <= i < |r| ==> r[i] == ListingOf(rows[i], protocol, host)
  {
    seq(|rows|, i requires 0 <= i < |rows| => ListingOf(rows[i], protocol, host))
  }

  /** Rows ordered newest first: no row was created after one before it. */
  predicate NewestSorted(rows: seq<FileRow>) {
    forall i, j :: 0 <= i < j < |rows| ==> rows[i].createdAt >= rows[j].createdAt
  }

  /** A row no older than any of newest-first rows may go before them. */
  lemma NewestSortedCons(x: FileRow, rows: seq<FileRow>)
    requires NewestSorted(rows)
    requires forall y :: y in rows ==> x.createdAt >= y.createdAt
    ensures NewestSorted([x] + rows)
  {
    forall i, j | 0 <= i < j < |[x] + rows|
      ensures ([x] + rows)[i].createdAt >= ([x] + rows)[j].createdAt
    {
      if i == 0 {
        assert ([x] + rows)[j] == rows[j - 1];
      }
    }
  }

  /** The first of newest-first rows is no older than the others. */
  lemma NewestHead(rows: seq<FileRow>)
    requires rows != [] && NewestSorted(rows)
    ensures forall y :: y in rows[1..] ==> rows[0].createdAt >= y.createdAt
  {
    forall y | y in rows[1..] ensures rows[0].createdAt >= y.createdAt {
      var k :| 0 <= k < |rows[1..]| && rows[1..][k] == y;
      assert rows[k + 1] == y;
    }
  }

  /** A bound on the rows of `tail` and on `row` bounds `tail` with `row`
      added, in whatever order. */
  lemma BoundAfterInsert(bound: nat, row: FileRow, tail: seq<FileRow>, rest: seq<FileRow>)
    requires multiset(rest) == multiset(tail) + multiset{row}
    requires forall y :: y in tail ==> bound >= y.createdAt
    requires bound >= row.createdAt
    ensures forall y :: y in rest ==> bound >= y.createdAt
  {
    forall y | y in rest ensures bound >= y.createdAt {
      assert y in multiset(rest);
      assert y in multiset(tail) || y == row;
    }
  }

  /** A row older than the head of newest-first rows, put among the rest,
      leaves the head in front. */
  lemma InsertBehindHead(row: FileRow, head: FileRow, tail: seq<FileRow>, rest: seq<FileRow>)
    requires NewestSorted([head] + tail) && head.createdAt > row.createdAt
    requires NewestSorted(rest) && multiset(rest) == multiset(tail) + multiset{row}
    ensures NewestSorted([head] + rest)
    ensures multiset([head] + rest) == multiset([head] + tail) + multiset{row}
  {
    NewestHead([head] + tail);
    assert ([head] + tail)[1..] == tail;
    BoundAfterInsert(head.createdAt, row, tail, rest);
    NewestSortedCons(head, rest);
  }

  /** `row` put into newest-first rows before the first row no newer than it. */
  function InsertByTime(row: FileRow, sorted: seq<FileRow>): (r: seq<FileRow>)
    requires NewestSorted(sorted)
    ensures multiset(r) == multiset(sorted) + multiset{row}
    ensures NewestSorted(r)
  {
    if sorted == [] || row.createdAt >= sorted[0].createdAt then
      NewestSortedCons(row, sorted);
      [row] + sorted
    else
      assert sorted == [sorted[0]] + sorted[1..];
      var rest := InsertByTime(row, sorted[1..]);
      InsertBehindHead(row, sorted[0], sorted[1..], rest);
      [sorted[0]] + rest
  }

  /** `order: [['createdAt', 'DESC']]`: the same rows, newest first. Rows
      created at the same time keep their table order here; the query
      leaves their order open. */
  function NewestFirst(rows: seq<FileRow>): (r: seq<FileRow>)
    ensures multiset(r) == multiset(rows)
    ensures NewestSorted(r)
  {
    if rows == [] then []
    else
      assert rows == [rows[0]] + rows[1..];
      InsertByTime(rows[0], NewestFirst(rows[1..]))
  }

  /** The rows of the listing: the user's own, and of the asked type when
      one is given. */
  predicate Listable(row: FileRow, owner: string, fileType: string) {
    row.uploadedBy == owner && (fileType != "" ==> row.fileType == fileType)
  }

  /** `getUserFiles`' `whereClause`: always the owner, the type only when
      one is asked for. */
  method WhereClause(owner: string, fileType: string) returns (where: map<string, string>)
    ensures "uploadedBy" in where && where["uploadedBy"] == owner
    ensures "fileType" in where <==> fileType != ""
    ensures "id" !in where
    ensures forall row :: Matches(where, row) <==> Listable(row, owner, fileType)
  {
    where := map["uploadedBy" := owner];
    if fileType != "" {
      where := where["fileType" := fileType];
    }
  }

  /** The user's files of the asked type, in table order. */
  function UserFiles(rows: seq<FileRow>, owner: string, fileType: string): (r: seq<FileRow>)
    ensures forall row :: row in r <==> row in rows && Listable(row, owner, fileType)
  {
    if rows == [] then []
    else (if Listable(rows[0], owner, fileType) then [rows[0]] else []) + UserFiles(rows[1..], owner, fileType)
  }

  /** The listing works row by row: on a concatenation it lists the files
      of each part, in order. */
  lemma {:induction false} UserFilesConcat(a: seq<FileRow>, b: seq<FileRow>, owner: string, fileType: string)
    ensures UserFiles(a + b, owner, fileType) == UserFiles(a, owner, fileType) + UserFiles(b, owner, fileType)
    decreases |a|
  {
    if a == [] {
      assert [] + b == b;
    } else {
      assert (a + b)[1..] == a[1..] + b;
      UserFilesConcat(a[1..], b, owner, fileType);
    }
  }

  /** A single row is listed exactly when it is listable. */
  lemma UserFilesSingle(row: FileRow, owner: string, fileType: string)
    ensures UserFiles([row], owner, fileType) == if Listable(row, owner, fileType) then [row] else []
  {
    assert [row][1..] == [];
  }

  /** A query whose clause selects exactly the listable rows finds the
      user's files, in the same order. */
  lemma {:induction false} MatchingUserFiles(rows: seq<FileRow>, where: map<string, string>,
                                             owner: string, fileType: string)
    requires forall row :: Matches(where, row) <==> Listable(row, owner, fileType)
    ensures Matching(rows, where) == UserFiles(rows, owner, fileType)
    decreases |rows|
  {
    if rows != [] {
      MatchingUserFiles(rows[1..], where, owner, fileType);
    }
  }

  /** `getUserFiles`: the owner's rows of the asked type, newest first,
      each as its listing. */
  method GetUserFiles(store: FileStore, userId: string, fileType: string, user: UserDoc?,
                      protocol: string, host: string)
    returns (reply: Reply, files: seq<Listed>)
    ensures userId == "" ==> reply == Unauthorized && files == []
    ensures userId != "" && user == null ==> reply == NoUser && files == []
    ensures userId != "" && user != null ==>
      && reply == Reply(200, "")
      && files == Listings(NewestFirst(UserFiles(store.rows, user.objectId, fileType)), protocol, host)
  {
    if userId == "" {
      return Unauthorized, [];
    }
    if user == null {
      return NoUser, [];
    }
    var where := WhereClause(user.objectId, fileType);
    var found := Matching(store.rows, where);
    MatchingUserFiles(store.rows, where, user.objectId, fileType);
    var rows := NewestFirst(found);
    files := Listings(rows, protocol, host);
    reply := Reply(200, "");
  }

  const NotOwned := Reply(404, "File not found or unauthorized")

  /** `deleteFile`: only a file the caller uploaded is deleted; any other
      id, whether unknown or someone else's, is a 404 and nothing changes. */
  method DeleteFile(store: FileStore, userId: string, fileId: string, user: UserDoc?)
    returns (reply: Reply)
    requires store.Valid()
    modifies store
    ensures store.Valid()
    ensures userId == "" ==> reply == Unauthorized && unchanged(store)
    ensures userId != "" && user == null ==> reply == NoUser && unchanged(store)
    ensures userId != "" && user != null ==>
      var owned := exists row :: row in old(store.rows) && NatStr(row.id) == fileId
                                 && row.uploadedBy == user.objectId;
      && (!owned ==> reply == NotOwned && unchanged(store))
      && (owned ==> reply == Reply(200, "File deleted successfully")
                    && store.rows == WithoutId(old(store.rows), fileId) && store.nextId == old(store.nextId)
                    && |store.rows| == |old(store.rows)| - 1)
  {
    if userId == "" {
      return Unauthorized;
    }
    if user == null {
      return NoUser;
    }
    var where := map["id" := fileId, "uploadedBy" := user.objectId];
    forall row ensures Matches(where, row) <==> NatStr(row.id) == fileId && row.uploadedBy == user.objectId {
      assert "id" in where && "uploadedBy" in where;
    }
    var found := FindFirst(store.rows, where);
    if found.None? {
      return NotOwned;
    }
    ghost var i :| 0 <= i < |store.rows| && store.rows[i] == found.value;
    WithoutIdAt(store.rows, i);
    store.DestroyWhereId(NatStr(found.value.id));
    reply := Reply(200, "File deleted successfully");
  }

  // ---------------------------------------------------------------------
  // Scenarios

  /** Uploading a second avatar deletes the first one's row: the URL stored
      for the first reads back as its id. */
  method ReplaceAvatar(owner: string, first: Upload, second: Upload, protocol: string, host: string,
                       now1: nat, uuid1: string, now2: nat, uuid2: string)
    returns (firstRow: FileRow, secondRow: FileRow, rows: seq<FileRow>, avatar: string)
    ensures firstRow.fileType == "avatar" && secondRow.fileType == "avatar"
    ensures rows == [secondRow] && firstRow !in rows
    ensures avatar == FileUrl(protocol, host, secondRow.id)
  {
    var store := new FileStore();
    var user := new UserDoc(owner, [], "");
    var reply, saved := UploadAvatar(store, "signed-in", Some(first), user, protocol, host, now1, uuid1);
    firstRow := saved.value;
    assert store.rows == [firstRow];
    OldAvatarIdOfFileUrl(protocol, host, firstRow.id);
    reply, saved := UploadAvatar(store, "signed-in", Some(second), user, protocol, host, now2, uuid2);
    secondRow := saved.value;
    assert WithoutId([firstRow], NatStr(firstRow.id)) == [];
    rows, avatar := store.rows, user.avatar;
  }

  /** The only row of a table is listed alone when listable, and otherwise
      nothing is. */
  lemma ListedAlone(row: FileRow, owner: string, fileType: string, protocol: string, host: string)
    ensures var listed := Listings(NewestFirst(UserFiles([row], owner, fileType)), protocol, host);
      listed == if Listable(row, owner, fileType) then [ListingOf(row, protocol, host)] else []
  {
    assert [row][1..] == [];
    assert NewestFirst([row]) == [row];
  }

  /** A stored resource is listed under no type and under "resource", with
      its `format`, and not under another type. */
  method UploadThenList(owner: string, file: Upload, title: string, protocol: string, host: string,
                        now: nat, uuid: string)
    returns (row: FileRow, all: seq<Listed>, resources: seq<Listed>, certificates: seq<Listed>)
    ensures row.title == (if title != "" then title else file.originalName)
    ensures all == [ListingOf(row, protocol, host)] && all[0].format == Format(file.mimeType)
    ensures resources == all
    ensures certificates == []
  {
    var store := new FileStore();
    var user := new UserDoc(owner, [], "");
    var reply, saved, shown := UploadResource(store, "signed-in", title, "", None, Some(file), user, now, uuid);
    row := saved.value;
    assert store.rows == [row];
    assert row.uploadedBy == owner && row.fileType == "resource";
    assert Listable(row, owner, "") && Listable(row, owner, "resource") && !Listable(row, owner, "certificate");
    ListedAlone(row, owner, "", protocol, host);
    ListedAlone(row, owner, "resource", protocol, host);
    ListedAlone(row, owner, "certificate", protocol, host);
    reply, all := GetUserFiles(store, "signed-in", "", user, protocol, host);
    reply, resources := GetUserFiles(store, "signed-in", "resource", user, protocol, host);
    reply, certificates := GetUserFiles(store, "signed-in", "certificate", user, protocol, host);
  }

  /** Another user cannot delete a file; its owner can, and then it is no
      longer listed. */
  method DeleteOnlyOwn(owner: string, other: string, file: Upload, now: nat, uuid: string)
    returns (byOther: Reply, byOwner: Reply, left: seq<Listed>)
    requires owner != other
    ensures byOther == NotOwned
    ensures byOwner == Reply(200, "File deleted successfully")
    ensures left == []
  {
    var store := new FileStore();
    var alice := new UserDoc(owner, [], "");
    var bob := new UserDoc(other, [], "");
    var reply, saved, shown := UploadResource(store, "signed-in", "", "", None, Some(file), alice, now, uuid);
    var row := saved.value;
    var id := NatStr(row.id);
    assert store.rows == [row];
    byOther := DeleteFile(store, "signed-in", id, bob);
    assert store.rows == [row];
    byOwner := DeleteFile(store, "signed-in", id, alice);
    assert store.rows == [];
    reply, left := GetUserFiles(store, "signed-in", "", alice, "http", "host");
  }
}
