/** The local inventory (`InternalStoragePhotoRepository`): the `.jpg` files of app
    storage, sorted by name, each with the lowercase hex SHA-1 of its contents. */
module PhotoRepository {
  import opened Model
  import opened Sequences
  import opened Streams

  // ---------------------------------------------------------------------------
  // Selecting and ordering the file names
  // ---------------------------------------------------------------------------

  /** ASCII upper-casing, the folding `ignoreCase = true` applies to Latin letters. */
  function UpperAscii(c: char): char {
    if 'a' <= c <= 'z' then (c as int - 32) as char else c
  }

  /** Character equality ignoring case. */
  predicate SameIgnoringCase(c: char, d: char) {
    c == d || UpperAscii(c) == UpperAscii(d)
  }

  /** `name.endsWith("jpg", ignoreCase = true)`: no dot is required. */
  predicate EndsWithJpg(name: string)
    ensures EndsWithJpg(name) <==>
      && |name| >= 3
      && name[|name| - 3] in {'j', 'J'}
      && name[|name| - 2] in {'p', 'P'}
      && name[|name| - 1] in {'g', 'G'}
  {
    var n := |name|;
    n >= 3
    && SameIgnoringCase(name[n - 3], 'j')
    && SameIgnoringCase(name[n - 2], 'p')
    && SameIgnoringCase(name[n - 1], 'g')
  }

  /** Kotlin's `String.compareTo(other) <= 0`: character by character, a proper prefix
      first. */
  predicate LessEq(a: string, b: string) {
    a == [] || (b != [] && (a[0] < b[0] || (a[0] == b[0] && LessEq(a[1..], b[1..]))))
  }

  lemma {:induction false} LessEqTotal(a: string, b: string)
    ensures LessEq(a, b) || LessEq(b, a)
  {
    if a != [] && b != [] && a[0] == b[0] {
      LessEqTotal(a[1..], b[1..]);
    }
  }

  lemma {:induction false} LessEqTransitive(a: string, b: string, c: string)
    requires LessEq(a, b) && LessEq(b, c)
    ensures LessEq(a, c)
  {
    if a != [] && a[0] == b[0] && b[0] == c[0] {
      LessEqTransitive(a[1..], b[1..], c[1..]);
    }
  }

  lemma {:induction false} LessEqAntisymmetric(a: string, b: string)
    requires LessEq(a, b) && LessEq(b, a)
    ensures a == b
  {
    if a != [] {
      LessEqAntisymmetric(a[1..], b[1..]);
      assert a == [a[0]] + a[1..] && b == [b[0]] + b[1..];
    }
  }

  predicate Sorted(s: seq<string>) {
    forall i, j :: 0 <= i < j < |s| ==> LessEq(s[i], s[j])
  }

  /** Inserts `x` before the first element it does not follow. */
  function Insert(x: string, s: seq<string>): seq<string> {
    if s == [] then [x]
    else if LessEq(x, s[0]) then [x] + s
    else [s[0]] + Insert(x, s[1..])
  }

  /** `sortedBy { f -> f }`. */
  function SortNames(s: seq<string>): seq<string> {
    if s == [] then [] else Insert(s[0], SortNames(s[1..]))
  }

  lemma {:induction false} InsertPermutation(x: string, s: seq<string>)
    ensures multiset(Insert(x, s)) == multiset(s) + multiset{x}
  {
    if s != [] && !LessEq(x, s[0]) {
      InsertPermutation(x, s[1..]);
      assert s == [s[0]] + s[1..];
    }
  }

  lemma {:induction false} InsertSorted(x: string, s: seq<string>)
    requires Sorted(s)
    ensures Sorted(Insert(x, s))
  {
    if s == [] {
    } else if LessEq(x, s[0]) {
      var r := [x] + s;
      forall i, j | 0 <= i < j < |r| ensures LessEq(r[i], r[j]) {
        if i == 0 {
          if j > 1 {
            LessEqTransitive(x, s[0], s[j - 1]);
          }
        } else {
          assert r[i] == s[i - 1] && r[j] == s[j - 1];
        }
      }
    } else {
      LessEqTotal(x, s[0]);
      var t := Insert(x, s[1..]);
      InsertSorted(x, s[1..]);
      InsertPermutation(x, s[1..]);
      var r := [s[0]] + t;
      forall i, j | 0 <= i < j < |r| ensures LessEq(r[i], r[j]) {
        if i == 0 {
          var y := t[j - 1];
          assert y in multiset(t);
          if y != x {
            assert y in multiset(s[1..]);
            var k :| 0 <= k < |s[1..]| && s[1..][k] == y;
            assert s[k + 1] == y;
          }
        } else {
          assert r[i] == t[i - 1] && r[j] == t[j - 1];
        }
      }
    }
  }

  /** The sort yields an ascending permutation of its input. */
  lemma {:induction false} SortNamesCorrect(s: seq<string>)
    ensures Sorted(SortNames(s))
    ensures multiset(SortNames(s)) == multiset(s)
  {
    if s != [] {
      SortNamesCorrect(s[1..]);
      InsertSorted(s[0], SortNames(s[1..]));
      InsertPermutation(s[0], SortNames(s[1..]));
      assert s == [s[0]] + s[1..];
    }
  }

  /** The names kept from the directory listing, in the order they are hashed. */
  function KeptNames(listing: seq<string>): seq<string> {
    SortNames(Filter(listing, EndsWithJpg))
  }

  /** `"$storagePath/$f"`. */
  function PhotoPath(storagePath: string, name: string): string {
    storagePath + "/" + name
  }

  /** The filter/sort/map chain of `getPhotos`. */
  function ImagePaths(storagePath: string, listing: seq<string>): seq<string> {
    var names := KeptNames(listing);
    seq(|names|, i requires 0 <= i < |names| => PhotoPath(storagePath, names[i]))
  }

  /** What the chain yields: exactly the `jpg` names of the listing (every copy of each),
      in ascending order, each prefixed with the storage path and a slash. */
  lemma ImagePathsSpec(storagePath: string, listing: seq<string>)
    ensures var names := KeptNames(listing);
      && |ImagePaths(storagePath, listing)| == |names|
      && (forall i :: 0 <= i < |names| ==>
            ImagePaths(storagePath, listing)[i] == storagePath + "/" + names[i])
      && Sorted(names)
      && (forall name :: name in names <==> name in listing && EndsWithJpg(name))
      && (forall name :: multiset(names)[name] == if EndsWithJpg(name) then multiset(listing)[name] else 0)
  {
    var kept := Filter(listing, EndsWithJpg);
    SortNamesCorrect(kept);
    forall name ensures name in KeptNames(listing) <==> name in listing && EndsWithJpg(name) {
      FilterMembership(listing, EndsWithJpg, name);
      assert name in KeptNames(listing) <==> name in multiset(KeptNames(listing));
    }
    forall name ensures multiset(KeptNames(listing))[name] ==
      if EndsWithJpg(name) then multiset(listing)[name] else 0
    {
      FilterCount(listing, EndsWithJpg, name);
    }
  }

  // ---------------------------------------------------------------------------
  // Hex encoding of the digest
  // ---------------------------------------------------------------------------

  const HexDigits: string := "0123456789abcdef"

  /** The value `%x` prints for a signed byte: the byte plus 256 when negative. */
  function Unsigned(b: Byte): (u: nat)
    ensures u < 256
  {
    if b < 0 then b + 256 else b
  }

  /** `"%02x".format(b)`: two lowercase hex digits, high nibble first. */
  function HexByte(b: Byte): string {
    [HexDigits[Unsigned(b) / 16], HexDigits[Unsigned(b) % 16]]
  }

  /** `digest.joinToString("") { "%02x".format(it) }`. */
  function HexEncode(d: seq<Byte>): string {
    if d == [] then "" else HexByte(d[0]) + HexEncode(d[1..])
  }

  /** The value of a lowercase hex digit. */
  function DigitValue(c: char): Option<nat> {
    if '0' <= c <= '9' then Some(c as int - '0' as int)
    else if 'a' <= c <= 'f' then Some(c as int - 'a' as int + 10)
    else None
  }

  /** Reads a signed byte back from two lowercase hex digits. */
  function ByteOf(hi: nat, lo: nat): Byte
    requires hi < 16 && lo < 16
  {
    var u := 16 * hi + lo;
    if u < 128 then u else u - 256
  }

  /** Inverse of `HexEncode` on lowercase hex text of even length. */
  function HexDecode(s: string): Option<seq<Byte>> {
    if s == [] then Some([])
    else if |s| == 1 then None
    else
      match (DigitValue(s[0]), DigitValue(s[1]))
      case (Some(hi), Some(lo)) =>
        if hi < 16 && lo < 16 then
          match HexDecode(s[2..])
          case Some(rest) => Some([ByteOf(hi, lo)] + rest)
          case None => None
        else None
      case _ => None
  }

  /** Two characters per byte, all of them lowercase hex digits, byte `i` at `2i`. */
  lemma {:induction false} HexEncodeShape(d: seq<Byte>)
    ensures |HexEncode(d)| == 2 * |d|
    ensures forall k :: 0 <= k < |HexEncode(d)| ==> HexEncode(d)[k] in HexDigits
    ensures forall i :: 0 <= i < |d| ==> HexEncode(d)[2 * i..2 * i + 2] == HexByte(d[i])
  {
    if d != [] {
      HexEncodeShape(d[1..]);
      var e := HexEncode(d);
      assert e == HexByte(d[0]) + HexEncode(d[1..]);
      forall i | 0 < i < |d| ensures e[2 * i..2 * i + 2] == HexByte(d[i]) {
        assert e[2 * i..2 * i + 2] == HexEncode(d[1..])[2 * (i - 1)..2 * (i - 1) + 2];
      }
    }
  }

  /** A SHA-1 digest (20 bytes) prints as 40 characters. */
  lemma Sha1HexLength(d: seq<Byte>)
    requires |d| == 20
    ensures |HexEncode(d)| == 40
  {
    HexEncodeShape(d);
  }

  lemma HexByteRoundTrip(b: Byte)
    ensures DigitValue(HexByte(b)[0]) == Some(Unsigned(b) / 16)
    ensures DigitValue(HexByte(b)[1]) == Some(Unsigned(b) % 16)
    ensures ByteOf(Unsigned(b) / 16, Unsigned(b) % 16) == b
  {
  }

  /** Decoding the hex text gives back the digest bytes. */
  lemma {:induction false} HexRoundTrip(d: seq<Byte>)
    ensures HexDecode(HexEncode(d)) == Some(d)
  {
    if d != [] {
      HexRoundTrip(d[1..]);
      HexByteRoundTrip(d[0]);
      var e := HexEncode(d);
      assert e[2..] == HexEncode(d[1..]);
      assert d == [d[0]] + d[1..];
    }
  }

  /** Different digests never print the same. */
  lemma HexEncodeInjective(a: seq<Byte>, b: seq<Byte>)
    requires HexEncode(a) == HexEncode(b)
    ensures a == b
  {
    HexRoundTrip(a);
    HexRoundTrip(b);
  }

  // ---------------------------------------------------------------------------
  // Hashing a file: MessageDigest fed chunk by chunk
  // ---------------------------------------------------------------------------

  /** `MessageDigest`: accumulates the bytes it is fed; `algorithm` maps the whole
      message to its digest and is left uninterpreted. */
  class MessageDigest {
    const algorithm: seq<Byte> -> seq<Byte>
    var fed: seq<Byte>

    constructor (algorithm: seq<Byte> -> seq<Byte>)
      ensures this.algorithm == algorithm && fed == []
    {
      this.algorithm := algorithm;
      fed := [];
    }

    /** `update(input, offset, len)`. */
    method Update(input: array<Byte>, offset: nat, len: nat)
      requires offset + len <= input.Length
      modifies this
      ensures fed == old(fed) + input[offset..offset + len]
    {
      fed := fed + input[offset..offset + len];
    }

    /** `digest()`: the digest of everything fed, after which the object is reset. */
    method Digest() returns (d: seq<Byte>)
      modifies this
      ensures d == algorithm(old(fed)) && fed == []
    {
      d := algorithm(fed);
      fed := [];
    }
  }

  /** The digest string `getPhotos` records for a file with these contents. */
  function FileDigest(contents: seq<Byte>, sha1: seq<Byte> -> seq<Byte>): string {
    HexEncode(sha1(contents))
  }

  /** `File(path).toHash("SHA-1")`: opening a missing file throws; otherwise the file
      is read in chunks of at most 1024 bytes and every chunk is fed to the digest. */
  method ToHash(fs: FileSystem, path: string, sha1: seq<Byte> -> seq<Byte>)
    returns (r: Result<string>)
    ensures path !in fs ==> r == Err(Io)
    ensures path in fs ==> r == Ok(HexEncode(sha1(fs[path])))
  {
    if path !in fs {
      return Err(Io);
    }
    var data := fs[path];
    var md := new MessageDigest(sha1);
    var stream := new InputStream(data);
    var buffer := new Byte[1024];
    var bytesRead := stream.Read(buffer);
    while bytesRead != -1
      invariant stream.Valid() && stream.data == data && md.algorithm == sha1
      invariant bytesRead == -1 ==> stream.pos == |data| && md.fed == data
      invariant bytesRead != -1 ==>
        && 0 < bytesRead <= buffer.Length
        && stream.pos >= bytesRead
        && md.fed == data[..stream.pos - bytesRead]
        && buffer[..bytesRead] == data[stream.pos - bytesRead..stream.pos]
      decreases |data| - stream.pos + (if bytesRead == -1 then 0 else 1)
    {
      md.Update(buffer, 0, bytesRead);
      assert md.fed == data[..stream.pos] by {
        assert data[..stream.pos] == data[..stream.pos - bytesRead] + data[stream.pos - bytesRead..stream.pos];
      }
      bytesRead := stream.Read(buffer);
      if bytesRead == -1 {
        assert data[..stream.pos] == data;
      }
    }
    var digest := md.Digest();
    return Ok(HexEncode(digest));
  }

  // ---------------------------------------------------------------------------
  // getPhotos
  // ---------------------------------------------------------------------------

  /** What `getPhotos` returns for a directory listing and file contents: an exception
      if any kept file cannot be read, else one photo per kept path, in order. */
  function Inventory(storagePath: string, listing: seq<string>, fs: FileSystem,
                     sha1: seq<Byte> -> seq<Byte>): Result<seq<Photo>>
  {
    var paths := ImagePaths(storagePath, listing);
    if forall i :: 0 <= i < |paths| ==> paths[i] in fs then
      Ok(seq(|paths|, i requires 0 <= i < |paths| => Photo(paths[i], FileDigest(fs[paths[i]], sha1))))
    else
      Err(Io)
  }

  /** `InternalStoragePhotoRepository.getPhotos`: hashes the kept files one by one; the
      first file that cannot be read aborts the whole listing. */
  method GetPhotos(storagePath: string, listing: seq<string>, fs: FileSystem,
                   sha1: seq<Byte> -> seq<Byte>)
    returns (r: Result<seq<Photo>>)
    ensures r.Err? <==> exists i :: 0 <= i < |ImagePaths(storagePath, listing)| && ImagePaths(storagePath, listing)[i] !in fs
    ensures r.Ok? ==>
      && |r.value| == |ImagePaths(storagePath, listing)|
      && forall i :: 0 <= i < |r.value| ==>
           && r.value[i].filename == ImagePaths(storagePath, listing)[i]
           && r.value[i].digest == HexEncode(sha1(fs[r.value[i].filename]))
    ensures r == Inventory(storagePath, listing, fs, sha1)
  {
    var imagePaths := ImagePaths(storagePath, listing);
    var photos: seq<Photo> := [];
    for i := 0 to |imagePaths|
      invariant |photos| == i
      invariant forall k :: 0 <= k < i ==> imagePaths[k] in fs
      invariant forall k :: 0 <= k < i ==> photos[k] == Photo(imagePaths[k], FileDigest(fs[imagePaths[k]], sha1))
    {
      var digest := ToHash(fs, imagePaths[i], sha1);
      if digest.Err? {
        return Err(Io);
      }
      photos := photos + [Photo(imagePaths[i], digest.value)];
    }
    assert photos == seq(|imagePaths|, i requires 0 <= i < |imagePaths| =>
      Photo(imagePaths[i], FileDigest(fs[imagePaths[i]], sha1)));
    return Ok(photos);
  }
}
