/**
 * The server's photo store (server.js): the uploads directory as a map from file name to
 * content and creation time, and the handlers of `POST /api/upload-base64`,
 * `POST /api/upload`, `GET /api/photos` and `DELETE /api/photos/:filename`.
 */
module PhotoStore {

  import opened Wrappers
  import Text
  import NodePath
  import UriComponent
  import DataUrl

  type Byte = UriComponent.Byte

  predicate IsBase36Digit(c: char) {
    '0' <= c <= '9' || 'a' <= c <= 'z'
  }

  /** `Math.random().toString(36).slice(2, 8)`: at most six base-36 digits. */
  type Token = s: string | |s| <= 6 && forall i :: 0 <= i < |s| ==> IsBase36Digit(s[i])

  /** A stored file: its bytes and the creation time its metadata reports. */
  datatype Photo = Photo(bytes: seq<Byte>, createdAt: int)

  /** A JSON body field as JavaScript truthiness and `typeof` see it. */
  datatype Field =
    | Falsy             // absent, null, false, 0 or NaN
    | NonString         // a truthy value that is not a string
    | Text(s: string)   // a string; the empty string is falsy

  /** An HTTP answer: a status with a JSON value, or a status with `{error: message}`. */
  datatype Reply<T> = Ok(status: int, value: T) | Err(status: int, error: string)

  /** The body `{filename, url}` of a successful upload. */
  datatype Saved = Saved(filename: string, url: string)

  /** One element of the `GET /api/photos` array. */
  datatype Listing = Listing(filename: string, url: string, size: nat, createdAt: int)

  /** What multer hands the multipart handler for the field `photo`. */
  datatype UploadedFile = UploadedFile(originalname: string, bytes: seq<Byte>)

  const ImageMissing := "Image data missing"
  const InvalidImage := "Invalid image data"
  const SaveFailed := "Gagal menyimpan gambar"
  const ReadFailed := "Gagal membaca folder uploads"
  const NotFound := "File not found"
  const DeleteFailed := "Gagal menghapus file"
  const NoFile := "No file uploaded (field: photo)"

  const Mount := "/uploads/"

  /** `/uploads/${encodeURIComponent(name)}` */
  function Url(name: string): (u: string)
    ensures Mount <= u
    ensures forall i :: |Mount| <= i < |u| ==> u[i] != '/'
  {
    Mount + UriComponent.Encode(name)
  }

  /** The public URL names exactly one file: decoding its last segment gives the name back. */
  lemma UrlNamesFile(name: string)
    ensures UriComponent.Decode(Url(name)[|Mount|..]) == Some(name)
  {
    assert Url(name)[|Mount|..] == UriComponent.Encode(name);
    UriComponent.DecodeEncode(name);
  }

  /** A base name that resolves to the uploads directory itself or to its parent. */
  predicate IsDirectoryName(name: string) {
    name == "" || name == "." || name == ".."
  }

  /** A name that denotes a regular file directly inside the uploads directory. */
  predicate IsFileName(name: string) {
    !IsDirectoryName(name) && NodePath.NoSlash(name)
  }

  /** `${Date.now()}-${token}.${ext}` */
  function GeneratedName(now: nat, token: Token, ext: string): string {
    Text.Decimal(now) + "-" + token + "." + ext
  }

  /** A generated name is a plain file name that starts with the clock digits and ends in `.ext`. */
  lemma GeneratedNameIsFileName(now: nat, token: Token, ext: string)
    requires NodePath.NoSlash(ext)
    ensures var n := GeneratedName(now, token, ext);
      && IsFileName(n)
      && Text.Decimal(now) <= n
      && n[|n| - |ext| - 1..] == "." + ext
  {
    var d := Text.Decimal(now);
    var n := GeneratedName(now, token, ext);
    assert n[0] == d[0] && Text.IsDigit(n[0]);
    assert n[..|d|] == d;
    assert forall i :: 0 <= i < |n| ==> n[i] != '/' by {
      forall i | 0 <= i < |n| ensures n[i] != '/' {
        if i < |d| { assert n[i] == d[i]; }
        else if i < |d| + 1 + |token| + 1 {}
        else { assert n[i] == ext[i - |d| - |token| - 2]; }
      }
    }
  }

  /**
   * `(filename && path.basename(filename)) || generated`; None where `path.basename` throws
   * because the field is a truthy value that is not a string.
   */
  function ChooseName(filename: Field, now: nat, token: Token, ext: string): (r: Option<string>)
    ensures r.None? <==> filename.NonString?
    ensures r.Some? ==> r.value != ""
  {
    match filename
    case Falsy => Some(GeneratedName(now, token, ext))
    case NonString => None
    case Text(s) =>
      if s == "" || NodePath.Basename(s) == "" then Some(GeneratedName(now, token, ext))
      else Some(NodePath.Basename(s))
  }

  /**
   * The stored name is the base name of the caller's string when that is non-empty and the
   * generated name otherwise; either way it is non-empty and holds no `/`. Only a generated
   * name is guaranteed not to be `.` or `..`.
   */
  lemma ChosenNameIsBaseName(filename: Field, now: nat, token: Token, ext: string)
    requires NodePath.NoSlash(ext)
    ensures ChooseName(filename, now, token, ext).Some? <==> !filename.NonString?
    ensures ChooseName(filename, now, token, ext).Some? ==>
      var n := ChooseName(filename, now, token, ext).value;
      && n != "" && NodePath.NoSlash(n)
      && (if filename.Text? && NodePath.Basename(filename.s) != ""
          then n == NodePath.Basename(filename.s)
          else n == GeneratedName(now, token, ext) && IsFileName(n))
  {
    GeneratedNameIsFileName(now, token, ext);
    if filename.Text? && filename.s == "" {
      NodePath.BasenameEmptyIffAllSlashes(filename.s);
    }
  }

  /** multer's `filename` callback: `${Date.now()}-${token}` + (`path.extname(originalname)` or `.png`). */
  function MulterName(originalname: string, now: nat, token: Token): string {
    Text.Decimal(now) + "-" + token + MulterExtension(originalname)
  }

  /** `path.extname(originalname) || '.png'` */
  function MulterExtension(originalname: string): string {
    var ext := NodePath.ExtName(originalname);
    if ext == "" then ".png" else ext
  }

  /** The name multer picks is a plain file name whose own extension is the original's, or `.png`. */
  lemma MulterNameKeepsExtension(originalname: string, now: nat, token: Token)
    ensures var n := MulterName(originalname, now, token); var ext := NodePath.ExtName(originalname);
      && IsFileName(n)
      && NodePath.ExtName(n) == (if ext == "" then ".png" else ext)
  {
    MulterExtensionShape(originalname);
    NameWithExtension(now, token, MulterExtension(originalname));
  }

  lemma MulterExtensionShape(originalname: string)
    ensures NodePath.IsExtension(MulterExtension(originalname))
  {
    var ext := NodePath.ExtName(originalname);
    if ext != "" {
      NodePath.ExtNameShape(originalname);
      assert NodePath.ExtensionOf(ext, NodePath.Basename(originalname));
      assert MulterExtension(originalname) == ext;
    } else {
      assert NodePath.IsExtension(".png");
    }
  }

  /** `${Date.now()}-${token}` followed by an extension `e` is a plain file name with extension `e`. */
  lemma NameWithExtension(now: nat, token: Token, e: string)
    requires NodePath.IsExtension(e)
    ensures var n := Text.Decimal(now) + "-" + token + e;
      IsFileName(n) && NodePath.ExtName(n) == e
  {
    var stem := Text.Decimal(now) + "-" + token;
    StemIsPlain(now, token);
    var n := stem + e;
    LastDotOfStemAndExtension(stem, e);
    NodePath.BasenameOfPlainName(n);
  }

  /** `${Date.now()}-${token}` starts with a digit and holds neither `/` nor `.`. */
  lemma StemIsPlain(now: nat, token: Token)
    ensures var stem := Text.Decimal(now) + "-" + token;
      && |stem| > 0 && Text.IsDigit(stem[0])
      && forall i :: 0 <= i < |stem| ==> stem[i] != '/' && stem[i] != '.'
  {
    var d := Text.Decimal(now);
    var stem := d + "-" + token;
    forall i | 0 <= i < |stem| ensures stem[i] != '/' && stem[i] != '.' {
      if i < |d| { assert stem[i] == d[i]; }
    }
  }

  /** After a dot-free stem, the dot that opens the extension is the last dot of the name. */
  lemma LastDotOfStemAndExtension(stem: string, e: string)
    requires |stem| > 0 && Text.IsDigit(stem[0])
    requires forall i :: 0 <= i < |stem| ==> stem[i] != '/' && stem[i] != '.'
    requires NodePath.IsExtension(e)
    ensures IsFileName(stem + e)
    ensures NodePath.BaseExt(stem + e) == e
  {
    var n := stem + e;
    assert forall i :: 0 <= i < |n| ==> n[i] != '/' by {
      forall i | 0 <= i < |n| ensures n[i] != '/' {
        if i >= |stem| { assert n[i] == e[i - |stem|]; }
      }
    }
    assert n[0] == stem[0];
    var k := NodePath.LastDot(n);
    assert n[|stem|] == '.';
    assert forall i :: |stem| < i < |n| ==> n[i] == e[i - |stem|];
    assert k == |stem|;
    assert n[k..] == e;
  }

  /** The listing element for a stored file. */
  function ListingOf(name: string, p: Photo): Listing {
    Listing(name, Url(name), |p.bytes|, p.createdAt)
  }

  /** Newest first: `createdAt` never increases along the list. */
  predicate NewestFirst(l: seq<Listing>) {
    forall i, j :: 0 <= i < j < |l| ==> l[i].createdAt >= l[j].createdAt
  }

  predicate DistinctNames(l: seq<Listing>) {
    forall i, j :: 0 <= i < j < |l| ==> l[i].filename != l[j].filename
  }

  /** `l` holds exactly one element per stored file, and that element describes the file. */
  predicate ListsEachOnce(l: seq<Listing>, files: map<string, Photo>) {
    && (forall i :: 0 <= i < |l| ==> l[i].filename in files && l[i] == ListingOf(l[i].filename, files[l[i].filename]))
    && DistinctNames(l)
    && (forall name :: name in files ==> exists i :: 0 <= i < |l| && l[i].filename == name)
  }

  lemma {:induction false} DistinctCountsOnce(l: seq<Listing>, x: Listing)
    requires DistinctNames(l)
    ensures multiset(l)[x] <= 1
  {
    if l != [] {
      DistinctCountsOnce(l[1..], x);
      assert l == [l[0]] + l[1..];
      if l[0] == x {
        assert x !in l[1..];
      }
    }
  }

  lemma RepeatCountsTwice(l: seq<Listing>, i: nat, j: nat)
    requires i < j < |l| && l[i] == l[j]
    ensures multiset(l)[l[i]] >= 2
  {
    assert l == l[..j] + [l[j]] + l[j + 1..];
    assert l[i] in l[..j];
  }

  /** Reordering a listing (as the sort does) keeps it a listing of the same files. */
  lemma PermutationListsEachOnce(a: seq<Listing>, b: seq<Listing>, files: map<string, Photo>)
    requires multiset(a) == multiset(b) && ListsEachOnce(a, files)
    ensures ListsEachOnce(b, files)
  {
    forall i | 0 <= i < |b|
      ensures b[i].filename in files && b[i] == ListingOf(b[i].filename, files[b[i].filename])
    {
      assert b[i] in multiset(b);
      assert b[i] in a;
    }
    forall i, j | 0 <= i < j < |b| ensures b[i].filename != b[j].filename {
      if b[i].filename == b[j].filename {
        assert b[i] in multiset(b) && b[j] in multiset(b);
        assert b[i] == b[j];
        RepeatCountsTwice(b, i, j);
        DistinctCountsOnce(a, b[i]);
        assert false;
      }
    }
    forall name | name in files ensures exists i :: 0 <= i < |b| && b[i].filename == name {
      var k :| 0 <= k < |a| && a[k].filename == name;
      assert a[k] in multiset(a);
      assert a[k] in b;
    }
  }

  /** `l` lists every stored file outside `pending` once, correctly, and nothing in `pending`. */
  predicate ListsAllBut(l: seq<Listing>, files: map<string, Photo>, pending: set<string>) {
    && (forall i :: 0 <= i < |l| ==>
          l[i].filename in files && l[i].filename !in pending
          && l[i] == ListingOf(l[i].filename, files[l[i].filename]))
    && DistinctNames(l)
    && (forall name :: name in files && name !in pending ==>
          exists i :: 0 <= i < |l| && l[i].filename == name)
  }

  /** Listing one more pending file keeps the listing correct for the rest. */
  lemma ListsOneMore(l: seq<Listing>, files: map<string, Photo>, pending: set<string>, f: string)
    requires ListsAllBut(l, files, pending) && f in pending && pending <= files.Keys
    ensures ListsAllBut(l + [ListingOf(f, files[f])], files, pending - {f})
  {
    var l' := l + [ListingOf(f, files[f])];
    forall name | name in files && name !in pending - {f}
      ensures exists i :: 0 <= i < |l'| && l'[i].filename == name
    {
      if name == f {
        assert l'[|l|].filename == name;
      } else {
        var i :| 0 <= i < |l| && l[i].filename == name;
        assert l'[i].filename == name;
      }
    }
  }

  /** The file names a listing mentions. */
  function NamesOf(l: seq<Listing>): set<string> {
    if l == [] then {} else {l[0].filename} + NamesOf(l[1..])
  }

  lemma {:induction false} NamesOfMember(l: seq<Listing>, x: string)
    ensures x in NamesOf(l) <==> exists i :: 0 <= i < |l| && l[i].filename == x
  {
    if l != [] {
      NamesOfMember(l[1..], x);
      if x in NamesOf(l[1..]) {
        var i :| 0 <= i < |l| - 1 && l[1..][i].filename == x;
        assert l[i + 1].filename == x;
      }
      if exists i :: 0 <= i < |l| && l[i].filename == x {
        var i :| 0 <= i < |l| && l[i].filename == x;
        if i > 0 {
          assert l[1..][i - 1].filename == x;
        }
      }
    }
  }

  /** Distinct names: the listing mentions as many names as it has elements. */
  lemma {:induction false} DistinctNamesCount(l: seq<Listing>)
    requires DistinctNames(l)
    ensures |NamesOf(l)| == |l|
  {
    if l != [] {
      var t := l[1..];
      forall i, j | 0 <= i < j < |t| ensures t[i].filename != t[j].filename {
        assert t[i] == l[i + 1] && t[j] == l[j + 1];
      }
      DistinctNamesCount(t);
      NamesOfMember(t, l[0].filename);
    }
  }

  /** A listing of the uploads directory has exactly as many entries as there are stored files. */
  lemma ListingSize(l: seq<Listing>, files: map<string, Photo>)
    requires ListsEachOnce(l, files)
    ensures |l| == |files|
  {
    DistinctNamesCount(l);
    forall x ensures x in NamesOf(l) <==> x in files {
      NamesOfMember(l, x);
    }
    assert NamesOf(l) == files.Keys;
  }

  /** `list.sort((a, b) => b.createdAt - a.createdAt)`, in place, newest first. */
  method SortNewestFirst(a: array<Listing>)
    modifies a
    ensures NewestFirst(a[..])
    ensures multiset(a[..]) == multiset(old(a[..]))
  {
    var i := 0;
    while i < a.Length
      invariant 0 <= i <= a.Length
      invariant forall p, q :: 0 <= p < q < i ==> a[p].createdAt >= a[q].createdAt
      invariant multiset(a[..]) == multiset(old(a[..]))
    {
      InsertNewestFirst(a, i);
      i := i + 1;
    }
  }

  /**
   * One pass of the insertion sort: `a[i]` moves towards the front past every older entry,
   * so that `a[..i + 1]` is newest first; the cells after `i` are untouched.
   */
  method InsertNewestFirst(a: array<Listing>, i: nat)
    requires i < a.Length
    requires forall p, q :: 0 <= p < q < i ==> a[p].createdAt >= a[q].createdAt
    modifies a
    ensures forall p, q :: 0 <= p < q <= i ==> a[p].createdAt >= a[q].createdAt
    ensures multiset(a[..]) == multiset(old(a[..]))
  {
    var j := i;
    while j > 0 && a[j - 1].createdAt < a[j].createdAt
      invariant 0 <= j <= i
      invariant Sinking(a[..], j, i)
      invariant multiset(a[..]) == multiset(old(a[..]))
    {
      SinkStep(a[..], j, i);
      SwapAdjacent(a, j - 1);
      j := j - 1;
    }
  }

  /**
   * While `s[j]` sinks towards the front: the entries up to `i` other than `s[j]` are newest
   * first, and `s[j]` is newer than every entry after it.
   */
  predicate Sinking(s: seq<Listing>, j: int, i: int)
    requires 0 <= j <= i < |s|
  {
    && (forall p, q :: 0 <= p < q <= i && p != j && q != j ==> s[p].createdAt >= s[q].createdAt)
    && (forall q :: j < q <= i ==> s[j].createdAt > s[q].createdAt)
  }

  lemma SinkStep(s: seq<Listing>, j: int, i: int)
    requires 0 < j <= i < |s| && Sinking(s, j, i) && s[j - 1].createdAt < s[j].createdAt
    ensures Sinking(s[j - 1 := s[j]][j := s[j - 1]], j - 1, i)
  {
  }

  /** Exchanges `a[k]` and `a[k + 1]`. */
  method SwapAdjacent(a: array<Listing>, k: nat)
    requires k + 1 < a.Length
    modifies a
    ensures a[..] == old(a[..])[k := old(a[k + 1])][k + 1 := old(a[k])]
    ensures multiset(a[..]) == multiset(old(a[..]))
  {
    var t := a[k];
    a[k] := a[k + 1];
    a[k + 1] := t;
  }

  /** The uploads directory. */
  class Store {

    var files: map<string, Photo>

    /** Every stored name denotes a regular file directly inside the directory. */
    ghost predicate Valid()
      reads this
    {
      forall name :: name in files ==> IsFileName(name)
    }

    constructor ()
      ensures Valid() && files == map[]
    {
      files := map[];
    }

    /**
     * `POST /api/upload-base64` with body fields `image` and `filename`. `decode` stands for
     * `Buffer.from(data, 'base64')`, `now` and `token` for the clock and the random suffix,
     * `createdAt` for the time the file system records, `writeFails` for a failing write.
     */
    method UploadBase64(image: Field, filename: Field, now: nat, token: Token, createdAt: int,
                        decode: string -> seq<Byte>, writeFails: bool) returns (r: Reply<Saved>)
      requires Valid()
      modifies this
      ensures Valid()
      ensures r.Err? ==> files == old(files)
      ensures !(image.Text? && image.s != "") ==> r == Err(400, ImageMissing)
      ensures image.Text? && image.s != "" && DataUrl.Parse(image.s).None? ==> r == Err(400, InvalidImage)
      ensures image.Text? && DataUrl.Parse(image.s).Some? ==>
        var p := DataUrl.Parse(image.s).value;
        match ChooseName(filename, now, token, p.subtype)
        case None => r == Err(500, SaveFailed)
        case Some(name) =>
          if IsDirectoryName(name) || writeFails then r == Err(500, SaveFailed)
          else
            && r == Ok(200, Saved(name, Url(name)))
            && files == old(files)[name := Photo(decode(p.data), createdAt)]
    {
      if !image.Text? || image.s == "" {
        return Err(400, ImageMissing);
      }
      var matches := DataUrl.Parse(image.s);
      if matches.None? {
        return Err(400, InvalidImage);
      }
      var p := matches.value;
      var ext := DataUrl.Extension(p.MediaType());
      DataUrl.ExtensionIsSubtype(p);
      var buffer := decode(p.data);
      var chosen := ChooseName(filename, now, token, ext);
      if chosen.None? {
        return Err(500, SaveFailed);
      }
      var name := chosen.value;
      ChosenNameIsBaseName(filename, now, token, ext);
      if IsDirectoryName(name) || writeFails {
        return Err(500, SaveFailed);
      }
      files := files[name := Photo(buffer, createdAt)];
      r := Ok(200, Saved(name, Url(name)));
    }

    /**
     * `POST /api/upload`: multer has already stored the field `photo` under the name its
     * `filename` callback chose; without a file the answer is 400 and nothing is written.
     */
    method UploadMultipart(file: Option<UploadedFile>, now: nat, token: Token, createdAt: int)
      returns (r: Reply<Saved>)
      requires Valid()
      modifies this
      ensures Valid()
      ensures file.None? ==> r == Err(400, NoFile) && files == old(files)
      ensures file.Some? ==>
        var name := MulterName(file.value.originalname, now, token);
        && r == Ok(200, Saved(name, Url(name)))
        && files == old(files)[name := Photo(file.value.bytes, createdAt)]
    {
      if file.None? {
        return Err(400, NoFile);
      }
      var name := MulterName(file.value.originalname, now, token);
      MulterNameKeepsExtension(file.value.originalname, now, token);
      files := files[name := Photo(file.value.bytes, createdAt)];
      r := Ok(200, Saved(name, Url(name)));
    }

    /** `files.map(f => ({filename, url, size, createdAt}))` over the names `readdir` gives, in its order. */
    method Describe() returns (built: seq<Listing>)
      ensures ListsEachOnce(built, files)
    {
      var pending := files.Keys;
      built := [];
      while pending != {}
        invariant pending <= files.Keys
        invariant ListsAllBut(built, files, pending)
        decreases pending
      {
        var f :| f in pending;
        ListsOneMore(built, files, pending, f);
        built := built + [ListingOf(f, files[f])];
        pending := pending - {f};
      }
    }

    /**
     * `GET /api/photos`: one element per stored file, newest first; `readFails` stands for a
     * failing `readdir` or `stat`, which yields 500 and no partial list.
     */
    method List(readFails: bool) returns (r: Reply<seq<Listing>>)
      requires Valid()
      ensures readFails ==> r == Err(500, ReadFailed)
      ensures !readFails ==> r.Ok? && r.status == 200 && ListsEachOnce(r.value, files) && NewestFirst(r.value)
    {
      if readFails {
        return Err(500, ReadFailed);
      }
      var built := Describe();
      var a := new Listing[|built|](i requires 0 <= i < |built| => built[i]);
      assert a[..] == built;
      SortNewestFirst(a);
      PermutationListsEachOnce(built, a[..], files);
      r := Ok(200, a[..]);
    }

    /**
     * `DELETE /api/photos/:filename`: the parameter is reduced to its base name; a name that
     * resolves to a directory exists but cannot be unlinked (500), an absent name gives 404,
     * and otherwise exactly that file is removed (204) unless `unlinkFails`.
     */
    method Delete(param: string, unlinkFails: bool) returns (r: Reply<()>)
      requires Valid()
      modifies this
      ensures Valid()
      ensures var name := NodePath.Basename(param);
        if IsDirectoryName(name) || (name in old(files) && unlinkFails) then
          r == Err(500, DeleteFailed) && files == old(files)
        else if name !in old(files) then
          r == Err(404, NotFound) && files == old(files)
        else
          r == Ok(204, ()) && files == old(files) - {name}
    {
      var name := NodePath.Basename(param);
      if IsDirectoryName(name) {
        return Err(500, DeleteFailed);
      }
      if name !in files {
        return Err(404, NotFound);
      }
      if unlinkFails {
        return Err(500, DeleteFailed);
      }
      files := files - {name};
      r := Ok(204, ());
    }
  }
}

/**
 * What a client of the store can conclude from the handlers' contracts alone: on an empty
 * uploads directory, uploading a PNG payload without a file name, listing, deleting the
 * returned name and listing again.
 */
module StoreScenario {

  import opened Wrappers
  import NodePath
  import DataUrl
  import PhotoStore

  /**
   * The upload is stored under a generated `.png` name with its URL, the listing shows exactly
   * that file, the delete answers 204 and the second listing is empty.
   */
  method UploadListDelete(p: DataUrl.Payload, now: nat, token: PhotoStore.Token, createdAt: int,
                          decode: string -> seq<PhotoStore.Byte>)
    returns (saved: PhotoStore.Reply<PhotoStore.Saved>, before: PhotoStore.Reply<seq<PhotoStore.Listing>>,
             deleted: PhotoStore.Reply<()>, after: PhotoStore.Reply<seq<PhotoStore.Listing>>)
    requires p.WellFormed() && p.subtype == "png"
    ensures saved.Ok? && saved.status == 200 && saved.value.url == PhotoStore.Url(saved.value.filename)
    ensures |saved.value.filename| > 4 && saved.value.filename[|saved.value.filename| - 4..] == ".png"
    ensures before.Ok? && |before.value| == 1 && before.value[0].filename == saved.value.filename
    ensures deleted == PhotoStore.Ok(204, ())
    ensures after == PhotoStore.Ok(200, [])
  {
    var store := new PhotoStore.Store();
    var name;
    saved, name := UploadPng(store, p, now, token, createdAt, decode);
    before := store.List(false);
    OnlyFileListed(before.value, store.files, name);
    deleted, after := DeleteAndList(store, name);
  }

  /** Uploading a PNG data URL into an empty store stores it, and only it, under a `.png` name. */
  method UploadPng(store: PhotoStore.Store, p: DataUrl.Payload, now: nat, token: PhotoStore.Token,
                   createdAt: int, decode: string -> seq<PhotoStore.Byte>)
    returns (saved: PhotoStore.Reply<PhotoStore.Saved>, name: string)
    requires p.WellFormed() && p.subtype == "png"
    requires store.Valid() && store.files == map[]
    modifies store
    ensures store.Valid() && store.files.Keys == {name} && NodePath.Basename(name) == name
    ensures !PhotoStore.IsDirectoryName(name)
    ensures saved == PhotoStore.Ok(200, PhotoStore.Saved(name, PhotoStore.Url(name)))
    ensures |name| > 4 && name[|name| - 4..] == ".png"
  {
    DataUrl.ParseFormat(p);
    name := PhotoStore.GeneratedName(now, token, "png");
    PngName(now, token);
    saved := store.UploadBase64(PhotoStore.Text(p.Format()), PhotoStore.Falsy, now, token, createdAt, decode, false);
    assert store.files == map[name := PhotoStore.Photo(decode(p.data), createdAt)];
  }

  /** Without a file name, a PNG upload is saved under a plain generated name ending in `.png`. */
  lemma PngName(now: nat, token: PhotoStore.Token)
    ensures var name := PhotoStore.GeneratedName(now, token, "png");
      && PhotoStore.ChooseName(PhotoStore.Falsy, now, token, "png") == Some(name)
      && PhotoStore.IsFileName(name) && NodePath.Basename(name) == name
      && |name| > 4 && name[|name| - 4..] == ".png"
  {
    var name := PhotoStore.GeneratedName(now, token, "png");
    PhotoStore.GeneratedNameIsFileName(now, token, "png");
    NodePath.BasenameOfPlainName(name);
  }

  /** Deleting the only stored file answers 204 and leaves nothing to list. */
  method DeleteAndList(store: PhotoStore.Store, name: string)
    returns (deleted: PhotoStore.Reply<()>, after: PhotoStore.Reply<seq<PhotoStore.Listing>>)
    requires store.Valid() && store.files.Keys == {name} && NodePath.Basename(name) == name
    requires !PhotoStore.IsDirectoryName(name)
    modifies store
    ensures deleted == PhotoStore.Ok(204, ())
    ensures after == PhotoStore.Ok(200, [])
  {
    deleted := store.Delete(name, false);
    assert store.files == map[];
    after := store.List(false);
    NothingListed(after.value, store.files);
  }

  /** An empty store lists nothing. */
  lemma NothingListed(l: seq<PhotoStore.Listing>, files: map<string, PhotoStore.Photo>)
    requires files == map[] && PhotoStore.ListsEachOnce(l, files)
    ensures l == []
  {
    PhotoStore.ListingSize(l, files);
  }

  /** A listing of a store that holds one file has exactly one element, for that file. */
  lemma OnlyFileListed(l: seq<PhotoStore.Listing>, files: map<string, PhotoStore.Photo>, name: string)
    requires files.Keys == {name} && PhotoStore.ListsEachOnce(l, files)
    ensures |l| == 1 && l[0].filename == name
  {
    PhotoStore.ListingSize(l, files);
    assert |files| == |files.Keys| == 1;
    assert l[0].filename in files;
  }
}
