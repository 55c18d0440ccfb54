/** Pack files: blobs one after the other, then the encrypted header, then its length.  Encryption is an
    arbitrary pair of functions that undo each other. */
module Pack {
  import opened Common

  datatype BlobType = InvalidBlob | DataBlob | TreeBlob

  datatype Blob = Blob(tpe: BlobType, id: seq<byte>, offset: nat, length: nat, uncompressedLength: nat)

  datatype Key = Key(seal: (seq<byte>, seq<byte>) -> seq<byte>, open: (seq<byte>, seq<byte>) -> Option<seq<byte>>)

  const IV_SIZE: nat := 16
  const MAC_SIZE: nat := 16
  const EXTENSION: nat := IV_SIZE + MAC_SIZE
  const ID_SIZE: nat := 32
  const HEADER_LENGTH_SIZE: nat := 4
  const HEADER_SIZE: nat := HEADER_LENGTH_SIZE + EXTENSION
  const ENTRY_SIZE: nat := 1 + 2 * HEADER_LENGTH_SIZE + ID_SIZE
  const PLAIN_ENTRY_SIZE: nat := 1 + HEADER_LENGTH_SIZE + ID_SIZE
  const MIN_FILE_SIZE: nat := PLAIN_ENTRY_SIZE + EXTENSION + HEADER_LENGTH_SIZE
  const MAX_HEADER_SIZE: nat := 16 * 1024 * 1024 + HEADER_LENGTH_SIZE
  const EAGER_ENTRIES: nat := 15
  const EAGER_SIZE: nat := EAGER_ENTRIES * ENTRY_SIZE + HEADER_SIZE
  const UINT32: nat := 0x1_0000_0000

  /** Opening undoes sealing, which adds the MAC. */
  ghost predicate Sound(k: Key) {
    forall nonce, text :: |k.seal(nonce, text)| == |text| + MAC_SIZE && k.open(nonce, k.seal(nonce, text)) == Some(text)
  }

  lemma Concat<T>(a: seq<T>, b: seq<T>, c: seq<T>)
    ensures [] + a == a && a + [] == a && a + (b + c) == (a + b) + c
  {
  }

  // ---------------------------------------------------------------- 32-bit numbers

  /** A number as four bytes, lowest first; higher bits are lost. */
  function PutUint32(n: nat): (bs: seq<byte>)
    ensures |bs| == 4
  {
    [n % 256, n / 256 % 256, n / 65536 % 256, n / 16777216 % 256]
  }

  function Uint32(bs: seq<byte>): (n: nat)
    requires |bs| == 4
  {
    var a: int, b: int, c: int, d: int := bs[0], bs[1], bs[2], bs[3];
    a + 256 * b + 65536 * c + 16777216 * d
  }

  /** The lowest byte and the rest. */
  lemma LowByte(n: nat)
    ensures n == n % 256 + 256 * (n / 256)
  {
  }

  /** Dropping bytes one after the other. */
  lemma DropBytes(n: nat)
    ensures n / 256 / 256 == n / 65536
    ensures n / 65536 / 256 == n / 16777216
  {
  }

  lemma Uint32RoundTrip(n: nat)
    requires n < UINT32
    ensures Uint32(PutUint32(n)) == n
  {
    LowByte(n);
    LowByte(n / 256);
    LowByte(n / 65536);
    DropBytes(n);
    TopByte(n);
  }

  lemma TopByte(n: nat)
    requires n < UINT32
    ensures n / 16777216 % 256 == n / 16777216
  {
  }

  // ---------------------------------------------------------------- the header

  function EntrySize(b: Blob): (n: nat) {
    if b.uncompressedLength != 0 then ENTRY_SIZE else PLAIN_ENTRY_SIZE
  }

  function EntrySizes(blobs: seq<Blob>): (n: nat) {
    if blobs == [] then 0 else EntrySize(blobs[0]) + EntrySizes(blobs[1..])
  }

  /** CalculateHeaderSize. */
  method CalculateHeaderSize(blobs: seq<Blob>) returns (size: nat)
    ensures size == HEADER_SIZE + EntrySizes(blobs)
  {
    size := HEADER_SIZE;
    for i := 0 to |blobs|
      invariant size + EntrySizes(blobs[i..]) == HEADER_SIZE + EntrySizes(blobs)
    {
      assert blobs[i..][1..] == blobs[i + 1..];
      size := size + EntrySize(blobs[i]);
    }
  }

  function TypeByte(b: Blob): (t: byte)
    requires !b.tpe.InvalidBlob?
  {
    (if b.tpe.TreeBlob? then 1 else 0) + (if b.uncompressedLength != 0 then 2 else 0)
  }

  function Entry(b: Blob): (bs: seq<byte>)
    requires !b.tpe.InvalidBlob?
  {
    [TypeByte(b)] + PutUint32(b.length) +
      (if b.uncompressedLength != 0 then PutUint32(b.uncompressedLength) else []) + b.id
  }

  /** The header text, or nothing if there is a blob of no valid type. */
  function Header(blobs: seq<Blob>): (r: Option<seq<byte>>) {
    if blobs == [] then Some([])
    else if blobs[0].tpe.InvalidBlob? then None
    else match Header(blobs[1..])
      case None => None
      case Some(rest) => Some(Entry(blobs[0]) + rest)
  }

  function After(buf: seq<byte>, r: Option<seq<byte>>): (r': Option<seq<byte>>) {
    if r.None? then None else Some(buf + r.value)
  }

  /** makeHeader. */
  method MakeHeader(blobs: seq<Blob>) returns (r: Option<seq<byte>>)
    ensures r == Header(blobs)
    ensures r.None? <==> exists i :: 0 <= i < |blobs| && blobs[i].tpe.InvalidBlob?
    ensures (forall b :: b in blobs ==> Encodable(b)) ==> r.Some? && exists at :: HeaderText(r.value, blobs, at)
  {
    hide Entry, HeaderText;
    HeaderFails(blobs);
    if forall b :: b in blobs ==> Encodable(b) { ghost var at := HeaderFormat(blobs); }
    var buf: seq<byte> := [];
    assert blobs[0..] == blobs;
    if Header(blobs).Some? { Concat(Header(blobs).value, [], []); }
    for i := 0 to |blobs|
      invariant Header(blobs) == After(buf, Header(blobs[i..]))
    {
      assert blobs[i..][1..] == blobs[i + 1..];
      if blobs[i].tpe.InvalidBlob? { return None; }
      var entry := MakeEntry(blobs[i]);
      if Header(blobs[i + 1..]).Some? { Concat(buf, entry, Header(blobs[i + 1..]).value); }
      buf := buf + entry;
    }
    Concat(buf, [], []);
    return Some(buf);
  }

  method MakeEntry(b: Blob) returns (entry: seq<byte>)
    requires !b.tpe.InvalidBlob?
    ensures entry == Entry(b)
  {
    entry := [TypeByte(b)] + PutUint32(b.length);
    if b.uncompressedLength != 0 { entry := entry + PutUint32(b.uncompressedLength); }
    entry := entry + b.id;
  }

  /** A blob that a header can describe. */
  ghost predicate Encodable(b: Blob) {
    !b.tpe.InvalidBlob? && |b.id| == ID_SIZE && b.length < UINT32 && b.uncompressedLength < UINT32
  }

  datatype Parsed = Parsed(blob: Blob, size: nat) | ParseError

  /** parseHeaderEntry. */
  function ParseHeaderEntry(p: seq<byte>): (r: Parsed) {
    if |p| < PLAIN_ENTRY_SIZE || p[0] > 3 then ParseError
    else
      var tpe := if p[0] == 0 || p[0] == 2 then DataBlob else TreeBlob;
      var length := Uint32(p[1..5]);
      if p[0] == 2 || p[0] == 3 then
        if |p| < ENTRY_SIZE then ParseError
        else Parsed(Blob(tpe, p[9..9 + ID_SIZE], 0, length, Uint32(p[5..9])), ENTRY_SIZE)
      else Parsed(Blob(tpe, p[5..5 + ID_SIZE], 0, length, 0), PLAIN_ENTRY_SIZE)
  }

  /** Parsing the entry of a blob gives back the blob, whatever follows. */
  lemma ParseEntry(b: Blob, rest: seq<byte>)
    requires Encodable(b)
    ensures |Entry(b)| == EntrySize(b)
    ensures ParseHeaderEntry(Entry(b) + rest) == Parsed(b.(offset := 0), EntrySize(b))
  {
    var p := Entry(b) + rest;
    Uint32RoundTrip(b.length);
    Uint32RoundTrip(b.uncompressedLength);
    assert p[1..5] == PutUint32(b.length);
    if b.uncompressedLength != 0 {
      assert p[5..9] == PutUint32(b.uncompressedLength);
      assert p[9..9 + ID_SIZE] == b.id;
    } else {
      assert p[5..5 + ID_SIZE] == b.id;
    }
  }

  // ---------------------------------------------------------------- the format, byte by byte

  /** The four bytes from `at` on are a number, byte j of which weighs 256 to the power of j. */
  ghost predicate LittleEndian(bs: seq<byte>, at: nat, n: int) {
    && at + 4 <= |bs|
    && var a: int, b: int, c: int, d: int := bs[at], bs[at + 1], bs[at + 2], bs[at + 3];
       n == a + b * 256 + c * 65536 + d * 16777216
  }

  /** The type byte for the type of a blob and whether it is compressed. */
  ghost predicate IsTypeByte(t: int, tpe: BlobType, compressed: bool) {
    || (t == 0 && tpe.DataBlob? && !compressed)
    || (t == 1 && tpe.TreeBlob? && !compressed)
    || (t == 2 && tpe.DataBlob? && compressed)
    || (t == 3 && tpe.TreeBlob? && compressed)
  }

  /** The bytes describe the blob: type byte, length, for a compressed blob the uncompressed length, and the
      ID of 32 bytes. */
  ghost predicate IsEntry(p: seq<byte>, b: Blob) {
    && (|p| == 37 || |p| == 41)
    && IsTypeByte(p[0], b.tpe, |p| == 41)
    && LittleEndian(p, 1, b.length)
    && (if |p| == 41 then LittleEndian(p, 5, b.uncompressedLength) else b.uncompressedLength == 0)
    && b.id == p[|p| - 32..]
  }

  lemma Uint32Is(p: seq<byte>, at: nat, size: nat)
    requires at + 4 <= size <= |p|
    ensures LittleEndian(p[..size], at, Uint32(p[at..at + 4]))
  {
  }

  lemma LittleEndianUnique(bs: seq<byte>, at: nat, m: int, n: int)
    requires LittleEndian(bs, at, m) && LittleEndian(bs, at, n)
    ensures m == n
  {
  }

  /** parseHeaderEntry reads exactly the entries of this format, and what they say. */
  lemma ParseFormat(p: seq<byte>, b: Blob, size: nat)
    ensures ParseHeaderEntry(p) == Parsed(b, size) <==> size <= |p| && IsEntry(p[..size], b) && b.offset == 0
  {
    hide Uint32, LittleEndian;
    if ParseHeaderEntry(p).Parsed? { ParsedIsEntry(p); }
    if size <= |p| && IsEntry(p[..size], b) {
      Uint32Is(p, 1, size);
      LittleEndianUnique(p[..size], 1, Uint32(p[1..5]), b.length);
      if size == 41 {
        Uint32Is(p, 5, size);
        LittleEndianUnique(p[..size], 5, Uint32(p[5..9]), b.uncompressedLength);
      }
      assert p[..size][size - 32..] == p[size - 32..size];
    }
  }

  lemma ParsedIsEntry(p: seq<byte>)
    requires ParseHeaderEntry(p).Parsed?
    ensures var r := ParseHeaderEntry(p); r.size <= |p| && IsEntry(p[..r.size], r.blob) && r.blob.offset == 0
  {
    hide Uint32, LittleEndian;
    var size := ParseHeaderEntry(p).size;
    Uint32Is(p, 1, size);
    if size == 41 { Uint32Is(p, 5, size); }
    assert p[..size][size - 32..] == p[size - 32..size];
  }

  /** makeHeader writes entries of this format. */
  lemma EntryFormat(b: Blob)
    requires Encodable(b)
    ensures IsEntry(Entry(b), b) && |Entry(b)| == if b.uncompressedLength != 0 then 41 else 37
  {
    hide ParseHeaderEntry, Entry;
    ParseEntry(b, []);
    assert Entry(b) + [] == Entry(b);
    ParseFormat(Entry(b), b.(offset := 0), EntrySize(b));
    assert Entry(b)[..EntrySize(b)] == Entry(b);
    OffsetFree(Entry(b), b, 0);
  }

  /** An entry says nothing about the offset. */
  lemma OffsetFree(p: seq<byte>, b: Blob, offset: nat)
    ensures IsEntry(p, b) <==> IsEntry(p, b.(offset := offset))
  {
  }

  ghost predicate EntryAt(text: seq<byte>, lo: nat, hi: nat, b: Blob) {
    lo <= hi <= |text| && IsEntry(text[lo..hi], b)
  }

  /** The text is one entry after the other; `at` are the places where they begin. */
  ghost predicate HeaderText(text: seq<byte>, blobs: seq<Blob>, at: seq<nat>) {
    && |at| == |blobs| + 1 && at[0] == 0 && at[|blobs|] == |text|
    && (forall i :: 0 <= i < |blobs| ==> EntryAt(text, at[i], at[i + 1], blobs[i]))
  }

  lemma ShiftEntry(text: seq<byte>, size: nat, lo: nat, hi: nat, b: Blob)
    requires size <= |text|
    ensures EntryAt(text[size..], lo, hi, b) <==> EntryAt(text, lo + size, hi + size, b)
  {
    hide IsEntry;
    if lo <= hi <= |text| - size { assert text[size..][lo..hi] == text[lo + size..hi + size]; }
  }

  lemma EntryFits(text: seq<byte>, lo: nat, hi: nat, b: Blob)
    requires EntryAt(text, lo, hi, b)
    ensures lo < hi <= |text|
  {
  }

  lemma {:induction false} AtGrows(text: seq<byte>, blobs: seq<Blob>, at: seq<nat>, i: nat)
    requires HeaderText(text, blobs, at) && 1 <= i <= |blobs|
    ensures at[1] <= at[i] <= |text|
  {
    hide EntryAt;
    EntryFits(text, at[i - 1], at[i], blobs[i - 1]);
    if i > 1 { AtGrows(text, blobs, at, i - 1); }
  }

  /** The text without its first entry. */
  lemma HeaderTextTail(text: seq<byte>, blobs: seq<Blob>, at: seq<nat>) returns (at': seq<nat>)
    requires HeaderText(text, blobs, at) && blobs != []
    ensures at[1] <= |text| && EntryAt(text, 0, at[1], blobs[0])
    ensures HeaderText(text[at[1]..], blobs[1..], at')
  {
    hide EntryAt;
    var size := at[1];
    assert EntryAt(text, at[0], at[1], blobs[0]);
    forall i | 1 <= i <= |blobs| ensures size <= at[i] <= |text| { AtGrows(text, blobs, at, i); }
    at' := seq(|blobs|, i requires 0 <= i < |blobs| => at[i + 1] - size);
    forall i | 0 <= i < |blobs| - 1 ensures EntryAt(text[size..], at'[i], at'[i + 1], blobs[1..][i]) {
      assert EntryAt(text, at[i + 1], at[i + 2], blobs[i + 1]);
      ShiftEntry(text, size, at'[i], at'[i + 1], blobs[i + 1]);
    }
  }

  /** The text with one more entry in front. */
  lemma HeaderTextCons(text: seq<byte>, size: nat, b: Blob, blobs: seq<Blob>, at': seq<nat>) returns (at: seq<nat>)
    requires EntryAt(text, 0, size, b) && size <= |text| && HeaderText(text[size..], blobs, at')
    ensures HeaderText(text, [b] + blobs, at)
  {
    hide EntryAt;
    var all := [b] + blobs;
    at := [0] + seq(|at'|, i requires 0 <= i < |at'| => at'[i] + size);
    forall i | 0 <= i < |all| ensures EntryAt(text, at[i], at[i + 1], all[i]) {
      if i > 0 {
        assert EntryAt(text[size..], at'[i - 1], at'[i], blobs[i - 1]);
        ShiftEntry(text, size, at'[i - 1], at'[i], blobs[i - 1]);
      }
    }
  }

  /** The loop of List over the decrypted header: offsets are the sums of the lengths before. */
  function ParseEntries(buf: seq<byte>, pos: nat): (r: Option<seq<Blob>>)
    decreases |buf|
  {
    if buf == [] then Some([])
    else match ParseHeaderEntry(buf)
      case ParseError => None
      case Parsed(blob, size) =>
        match ParseEntries(buf[size..], pos + blob.length)
        case None => None
        case Some(rest) => Some([blob.(offset := pos)] + rest)
  }

  /** The offsets of the blobs are the sums of the lengths before them. */
  ghost predicate Consecutive(blobs: seq<Blob>, pos: nat) {
    blobs == [] || (blobs[0].offset == pos && Consecutive(blobs[1..], pos + blobs[0].length))
  }

  /** The header of consecutive blobs parses to these blobs. */
  lemma {:induction false} HeaderRoundTrip(blobs: seq<Blob>, pos: nat)
    requires Consecutive(blobs, pos) && forall b :: b in blobs ==> Encodable(b)
    ensures Header(blobs).Some? && |Header(blobs).value| == EntrySizes(blobs)
    ensures ParseEntries(Header(blobs).value, pos) == Some(blobs)
  {
    if blobs != [] {
      var b := blobs[0];
      HeaderRoundTrip(blobs[1..], pos + b.length);
      var rest := Header(blobs[1..]).value;
      ParseEntry(b, rest);
      assert (Entry(b) + rest)[EntrySize(b)..] == rest;
      assert blobs == [b] + blobs[1..];
    }
  }

  /** What List accepts is a text of this format, and the blobs are what it says. */
  lemma EntriesFormat(text: seq<byte>, blobs: seq<Blob>, pos: nat)
    ensures ParseEntries(text, pos) == Some(blobs) <==>
      Consecutive(blobs, pos) && exists at :: HeaderText(text, blobs, at)
  {
    hide ParseEntries, HeaderText, Consecutive;
    if ParseEntries(text, pos) == Some(blobs) { ParsedFormat(text, blobs, pos); }
    if Consecutive(blobs, pos) && exists at :: HeaderText(text, blobs, at) {
      var at :| HeaderText(text, blobs, at);
      FormatParsed(text, blobs, pos, at);
    }
  }

  lemma NoEntries()
    ensures HeaderText([], [], [0])
  {
  }

  lemma {:induction false} ParsedFormat(text: seq<byte>, blobs: seq<Blob>, pos: nat)
    requires ParseEntries(text, pos) == Some(blobs)
    ensures Consecutive(blobs, pos) && exists at :: HeaderText(text, blobs, at)
    decreases |text|
  {
    hide ParseHeaderEntry, IsEntry, HeaderText;
    if text == [] {
      NoEntries();
    } else {
      var p := ParseHeaderEntry(text);
      ParseFormat(text, p.blob, p.size);
      assert text[0..p.size] == text[..p.size];
      var b := p.blob.(offset := pos);
      OffsetFree(text[..p.size], p.blob, pos);
      EntryFits(text, 0, p.size, b);
      var rest := ParseEntries(text[p.size..], pos + b.length).value;
      ParsedFormat(text[p.size..], rest, pos + b.length);
      var at' :| HeaderText(text[p.size..], rest, at');
      var at := HeaderTextCons(text, p.size, b, rest, at');
      assert blobs == [b] + rest && blobs[1..] == rest;
    }
  }

  lemma {:induction false} FormatParsed(text: seq<byte>, blobs: seq<Blob>, pos: nat, at: seq<nat>)
    requires Consecutive(blobs, pos) && HeaderText(text, blobs, at)
    ensures ParseEntries(text, pos) == Some(blobs)
    decreases |blobs|
  {
    hide ParseHeaderEntry, IsEntry;
    if blobs != [] {
      var size, b := at[1], blobs[0];
      var at' := HeaderTextTail(text, blobs, at);
      EntryFits(text, 0, size, b);
      assert text[0..size] == text[..size];
      OffsetFree(text[..size], b, 0);
      ParseFormat(text, b.(offset := 0), size);
      FormatParsed(text[size..], blobs[1..], pos + b.length, at');
      assert blobs == [b] + blobs[1..];
    }
  }

  /** What makeHeader writes is a text of this format. */
  lemma {:induction false} HeaderFormat(blobs: seq<Blob>) returns (at: seq<nat>)
    requires forall b :: b in blobs ==> Encodable(b)
    ensures Header(blobs).Some? && HeaderText(Header(blobs).value, blobs, at)
  {
    hide Entry, IsEntry, HeaderText;
    if blobs == [] {
      NoEntries();
      at := [0];
    } else {
      assert blobs[0] in blobs;
      var at' := HeaderFormat(blobs[1..]);
      var rest, entry := Header(blobs[1..]).value, Entry(blobs[0]);
      EntryFormat(blobs[0]);
      var text := entry + rest;
      assert text[|entry|..] == rest && text[0..|entry|] == entry;
      at := HeaderTextCons(text, |entry|, blobs[0], blobs[1..], at');
      assert blobs == [blobs[0]] + blobs[1..];
    }
  }

  lemma {:induction false} HeaderFails(blobs: seq<Blob>)
    ensures Header(blobs).None? <==> exists i :: 0 <= i < |blobs| && blobs[i].tpe.InvalidBlob?
  {
    hide Entry;
    if blobs != [] {
      HeaderFails(blobs[1..]);
      if exists i :: 0 <= i < |blobs| && blobs[i].tpe.InvalidBlob? {
        var i :| 0 <= i < |blobs| && blobs[i].tpe.InvalidBlob?;
        if i > 0 { assert blobs[1..][i - 1].tpe.InvalidBlob?; }
      }
      if exists i :: 0 <= i < |blobs[1..]| && blobs[1..][i].tpe.InvalidBlob? {
        var i :| 0 <= i < |blobs[1..]| && blobs[1..][i].tpe.InvalidBlob?;
        assert blobs[i + 1].tpe.InvalidBlob?;
      }
    }
  }

  // ---------------------------------------------------------------- reading the end of a pack file

  datatype Error = TooSmall | HeaderZero | HeaderTooSmall | LargerThanFile | LargerThanMax | BadMac | BadEntry

  datatype Result<+T> = Ok(value: T) | Err(error: Error)

  /** The checks on the header length. */
  function CheckLength(hlen: nat, size: nat): (r: Option<Error>) {
    if hlen == 0 then Some(HeaderZero)
    else if hlen < EXTENSION then Some(HeaderTooSmall)
    else if hlen > size - HEADER_LENGTH_SIZE then Some(LargerThanFile)
    else if hlen > MAX_HEADER_SIZE - HEADER_LENGTH_SIZE then Some(LargerThanMax)
    else None
  }

  /** readRecords: one read of up to `bufsize` bytes at the end of the file. */
  method ReadRecords(file: seq<byte>, bufsize0: nat) returns (r: Result<seq<byte>>, total: nat)
    requires |file| >= HEADER_LENGTH_SIZE && bufsize0 >= HEADER_LENGTH_SIZE
    ensures var size := |file|; var hlen := Uint32(file[size - 4..]);
      match CheckLength(hlen, size)
      case Some(e) => r == Err(e)
      case None =>
        && total == hlen + HEADER_LENGTH_SIZE <= size
        && (total <= bufsize0 ==> r == Ok(file[size - total..size - 4]))
        && r.Ok?
  {
    var size := |file|;
    var bufsize := if bufsize0 > size then size else bufsize0;
    var b := file[size - bufsize..];
    assert b[|b| - 4..] == file[size - 4..];
    var hlen := Uint32(b[|b| - HEADER_LENGTH_SIZE..]);
    b := b[..|b| - HEADER_LENGTH_SIZE];
    var e := CheckLength(hlen, size);
    if e.Some? { return Err(e.value), 0; }
    total := hlen + HEADER_LENGTH_SIZE;
    if total < bufsize {
      b := b[|b| - hlen..];
    }
    assert total <= bufsize ==> b == file[size - total..size - 4];
    return Ok(b), total;
  }

  /** What a pack file's header is: the bytes before the length field that it counts. */
  function HeaderOf(file: seq<byte>): (r: Result<seq<byte>>) {
    var size := |file|;
    if size < MIN_FILE_SIZE then Err(TooSmall)
    else
      var hlen := Uint32(file[size - 4..]);
      match CheckLength(hlen, size)
      case Some(e) => Err(e)
      case None => Ok(file[size - 4 - hlen..size - 4])
  }

  /** readHeader: an eager read that usually suffices, and at most one more. */
  method ReadHeader(file: seq<byte>) returns (r: Result<seq<byte>>, requests: nat)
    ensures r == HeaderOf(file)
    ensures requests <= 2
  {
    if |file| < MIN_FILE_SIZE { return Err(TooSmall), 0; }
    var c;
    r, c := ReadRecords(file, EAGER_SIZE);
    if r.Err? || c <= EAGER_SIZE { return r, 1; }
    r, c := ReadRecords(file, c);
    return r, 2;
  }

  /** A pack file, from its end: the length of the encrypted header in four bytes, lowest first; the encrypted
      header before it, which begins with the nonce of 16 bytes; its text lists the blobs. */
  ghost predicate FileFormat(k: Key, file: seq<byte>, blobs: seq<Blob>, hlen: nat, text: seq<byte>, at: seq<nat>) {
    && |file| >= 73 && LittleEndian(file, |file| - 4, hlen)
    && 32 <= hlen <= |file| - 4 && hlen <= 16 * 1024 * 1024
    && k.open(file[|file| - 4 - hlen..|file| - 4 - hlen + 16], file[|file| - 4 - hlen + 16..|file| - 4]) == Some(text)
    && HeaderText(text, blobs, at) && Consecutive(blobs, 0)
  }

  /** A pack file is listed exactly if it is of this format, with the blobs that its text says. */
  lemma ListFormat(k: Key, file: seq<byte>, blobs: seq<Blob>)
    ensures Entries(k, file) == Ok(blobs) <==> exists hlen, text, at :: FileFormat(k, file, blobs, hlen, text, at)
  {
    hide ParseEntries, HeaderText, Consecutive, Uint32, LittleEndian;
    if Entries(k, file) == Ok(blobs) { ListedFormat(k, file, blobs); }
    if exists hlen, text, at :: FileFormat(k, file, blobs, hlen, text, at) {
      var hlen, text, at :| FileFormat(k, file, blobs, hlen, text, at);
      FormatListed(k, file, blobs, hlen, text, at);
    }
  }

  lemma LengthField(file: seq<byte>)
    requires |file| >= 4
    ensures LittleEndian(file, |file| - 4, Uint32(file[|file| - 4..]))
  {
    assert file[..|file|] == file && file[|file| - 4..] == file[|file| - 4..|file| - 4 + 4];
    Uint32Is(file, |file| - 4, |file|);
  }

  lemma ListedFormat(k: Key, file: seq<byte>, blobs: seq<Blob>)
    requires Entries(k, file) == Ok(blobs)
    ensures exists hlen, text, at :: FileFormat(k, file, blobs, hlen, text, at)
  {
    hide ParseEntries, HeaderText, Consecutive, Uint32, LittleEndian;
    LengthField(file);
    var hlen := Uint32(file[|file| - 4..]);
    var buf := HeaderOf(file).value;
    var text := k.open(buf[..IV_SIZE], buf[IV_SIZE..]).value;
    EntriesFormat(text, blobs, 0);
    var at :| HeaderText(text, blobs, at);
    var start := |file| - 4 - hlen;
    assert buf[..IV_SIZE] == file[start..start + 16] && buf[IV_SIZE..] == file[start + 16..|file| - 4];
    assert FileFormat(k, file, blobs, hlen, text, at);
  }

  lemma FormatListed(k: Key, file: seq<byte>, blobs: seq<Blob>, hlen: nat, text: seq<byte>, at: seq<nat>)
    requires FileFormat(k, file, blobs, hlen, text, at)
    ensures Entries(k, file) == Ok(blobs)
  {
    hide ParseEntries, HeaderText, Consecutive, Uint32, LittleEndian;
    LengthField(file);
    LittleEndianUnique(file, |file| - 4, hlen, Uint32(file[|file| - 4..]));
    EntriesFormat(text, blobs, 0);
    var start := |file| - 4 - hlen;
    var buf := file[start..|file| - 4];
    assert buf[..IV_SIZE] == file[start..start + 16] && buf[IV_SIZE..] == file[start + 16..|file| - 4];
  }

  /** List: the blobs of a pack file and the size of its header. */
  method List(k: Key, file: seq<byte>) returns (r: Result<seq<Blob>>, hdrSize: nat)
    ensures r == Entries(k, file)
    ensures forall blobs :: r == Ok(blobs) <==> exists hlen, text, at :: FileFormat(k, file, blobs, hlen, text, at)
    ensures r.Ok? ==> |file| >= 4 && LittleEndian(file, |file| - 4, hdrSize - 4)
  {
    hide FileFormat, LittleEndian, Uint32, ParseEntries;
    forall blobs
      ensures Entries(k, file) == Ok(blobs) <==> exists hlen, text, at :: FileFormat(k, file, blobs, hlen, text, at)
    {
      ListFormat(k, file, blobs);
    }
    var requests;
    var h;
    h, requests := ReadHeader(file);
    if h.Err? { return Err(h.error), 0; }
    var buf := h.value;
    hdrSize := HEADER_LENGTH_SIZE + |buf|;
    LengthField(file);
    var text := k.open(buf[..IV_SIZE], buf[IV_SIZE..]);
    if text.None? { return Err(BadMac), 0; }
    var entries := ReadEntries(text.value);
    if entries.None? { return Err(BadEntry), 0; }
    return Ok(entries.value), hdrSize;
  }

  /** The loop over the entries of the header text. */
  method ReadEntries(text: seq<byte>) returns (r: Option<seq<Blob>>)
    ensures r == ParseEntries(text, 0)
  {
    var rest, pos: nat, entries: seq<Blob> := text, 0, [];
    if ParseEntries(rest, 0).Some? { Concat(ParseEntries(rest, 0).value, [], []); }
    while |rest| > 0
      invariant ParseEntries(text, 0) == AfterBlobs(entries, ParseEntries(rest, pos))
      decreases |rest|
    {
      var p := ParseHeaderEntry(rest);
      if p.ParseError? { return None; }
      ghost var next := ParseEntries(rest[p.size..], pos + p.blob.length);
      if next.Some? { Concat(entries, [p.blob.(offset := pos)], next.value); }
      entries := entries + [p.blob.(offset := pos)];
      rest, pos := rest[p.size..], pos + p.blob.length;
    }
    Concat(entries, [], []);
    return Some(entries);
  }

  function AfterBlobs(a: seq<Blob>, r: Option<seq<Blob>>): (r': Option<seq<Blob>>) {
    if r.None? then None else Some(a + r.value)
  }

  /** The blobs that a pack file lists. */
  function Entries(k: Key, file: seq<byte>): (r: Result<seq<Blob>>) {
    match HeaderOf(file)
    case Err(e) => Err(e)
    case Ok(buf) =>
      match k.open(buf[..IV_SIZE], buf[IV_SIZE..])
      case None => Err(BadMac)
      case Some(text) =>
        match ParseEntries(text, 0)
        case None => Err(BadEntry)
        case Some(blobs) => Ok(blobs)
  }

  // ---------------------------------------------------------------- writing a pack file

  lemma {:induction false} ConsecutiveSnoc(blobs: seq<Blob>, pos: nat, b: Blob)
    requires Consecutive(blobs, pos) && b.offset == pos + Sum(blobs)
    ensures Consecutive(blobs + [b], pos)
  {
    if blobs == [] {
      assert blobs + [b] == [b];
    } else {
      ConsecutiveSnoc(blobs[1..], pos + blobs[0].length, b);
      assert (blobs + [b])[1..] == blobs[1..] + [b];
    }
  }

  function Sum(blobs: seq<Blob>): (n: nat) {
    if blobs == [] then 0 else blobs[0].length + Sum(blobs[1..])
  }

  lemma {:induction false} SumSnoc(blobs: seq<Blob>, b: Blob)
    ensures Sum(blobs + [b]) == Sum(blobs) + b.length
    ensures EntrySizes(blobs + [b]) == EntrySizes(blobs) + EntrySize(b)
  {
    if blobs == [] {
      assert blobs + [b] == [b];
    } else {
      SumSnoc(blobs[1..], b);
      assert (blobs + [b])[1..] == blobs[1..] + [b];
    }
  }

  /** A pack file: the blobs, the nonce and the sealed header, and its length. */
  function PackFile(k: Key, nonce: seq<byte>, data: seq<byte>, header: seq<byte>): (file: seq<byte>) {
    var sealed := nonce + k.seal(nonce, header);
    data + sealed + PutUint32(|sealed|)
  }

  /** A finalized pack lists exactly the blobs that were added, with their offsets, if its header is not
      too large, and is rejected otherwise; the sizes are what CalculateHeaderSize says. */
  lemma PackRoundTrip(k: Key, nonce: seq<byte>, data: seq<byte>, blobs: seq<Blob>)
    requires Sound(k) && |nonce| == IV_SIZE && blobs != []
    requires Consecutive(blobs, 0) && |data| == Sum(blobs)
    requires forall b :: b in blobs ==> Encodable(b)
    requires EXTENSION + EntrySizes(blobs) < UINT32
    ensures Header(blobs).Some?
    ensures var file := PackFile(k, nonce, data, Header(blobs).value);
      && |file| == Sum(blobs) + HEADER_SIZE + EntrySizes(blobs)
      && (if HEADER_SIZE + EntrySizes(blobs) <= MAX_HEADER_SIZE
          then Entries(k, file) == Ok(blobs) &&
            HEADER_LENGTH_SIZE + |HeaderOf(file).value| == HEADER_SIZE + EntrySizes(blobs)
          else Entries(k, file) == Err(LargerThanMax))
  {
    hide Header, ParseEntries, Consecutive, Encodable;
    HeaderRoundTrip(blobs, 0);
    SomeEntry(blobs);
    var header := Header(blobs).value;
    var sealed := nonce + k.seal(nonce, header);
    var file := PackFile(k, nonce, data, header);
    Uint32RoundTrip(|sealed|);
    hide PutUint32, Uint32;
    assert file[|file| - 4..] == PutUint32(|sealed|);
    assert file[|file| - 4 - |sealed|..|file| - 4] == sealed;
    assert sealed[..IV_SIZE] == nonce && sealed[IV_SIZE..] == k.seal(nonce, header);
  }

  /** What Finalize writes after the blobs: nonce, sealed header, and the length of both. */
  lemma PackFileLayout(k: Key, nonce: seq<byte>, data: seq<byte>, header: seq<byte>)
    requires Sound(k) && |nonce| == 16 && |header| + 32 < UINT32
    ensures var file := PackFile(k, nonce, data, header);
      && |file| == |data| + |header| + 36
      && file[..|data|] == data && file[|data|..|data| + 16] == nonce
      && file[|data| + 16..|file| - 4] == k.seal(nonce, header)
      && LittleEndian(file, |file| - 4, |header| + 32)
  {
    hide PutUint32, Uint32, LittleEndian;
    var sealed := nonce + k.seal(nonce, header);
    var file := PackFile(k, nonce, data, header);
    assert k.open(nonce, k.seal(nonce, header)) == Some(header);
    assert |sealed| == |header| + 32;
    assert file[|file| - 4..] == PutUint32(|sealed|);
    Uint32RoundTrip(|sealed|);
    LengthField(file);
  }

  lemma SomeEntry(blobs: seq<Blob>)
    requires blobs != []
    ensures EntrySizes(blobs) >= PLAIN_ENTRY_SIZE
  {
  }

  class Packer {
    const k: Key
    var blobs: seq<Blob>
    var bytes: nat
    var wr: seq<byte>    // what has been written

    ghost predicate Valid() reads this {
      Consecutive(blobs, 0) && bytes == |wr| == Sum(blobs)
    }

    constructor (k: Key)
      ensures Valid() && this.k == k && blobs == [] && wr == []
    {
      this.k := k;
      blobs, bytes, wr := [], 0, [];
    }

    /** Writes a blob; returns its size together with that of its header entry. */
    method Add(t: BlobType, id: seq<byte>, data: seq<byte>, uncompressedLength: nat) returns (n: nat)
      requires Valid()
      modifies this
      ensures Valid() && wr == old(wr) + data
      ensures blobs == old(blobs) + [Blob(t, id, old(bytes), |data|, uncompressedLength)]
      ensures n == |data| + EntrySize(blobs[|blobs| - 1])
    {
      var c := Blob(t, id, bytes, |data|, uncompressedLength);
      ConsecutiveSnoc(blobs, 0, c);
      SumSnoc(blobs, c);
      wr := wr + data;
      bytes := bytes + |data|;
      blobs := blobs + [c];
      n := |data| + EntrySize(c);
    }

    /** Writes the header; the result can be listed again (see PackRoundTrip). */
    method Finalize(nonce: seq<byte>) returns (ok: bool)
      requires Valid() && |nonce| == IV_SIZE
      modifies this
      ensures blobs == old(blobs)
      ensures ok <==> Header(blobs).Some?
      ensures if ok then wr == PackFile(k, nonce, old(wr), Header(blobs).value) && bytes == |wr| else wr == old(wr)
    {
      hide Consecutive, Header;
      var header := MakeHeader(blobs);
      if header.None? { return false; }
      var encryptedHeader := nonce + k.seal(nonce, header.value);
      var hdrBytes := |encryptedHeader|;
      wr := wr + encryptedHeader + PutUint32(hdrBytes);
      bytes := bytes + hdrBytes + HEADER_LENGTH_SIZE;
      return true;
    }

    function HeaderFull(): (full: bool) reads this {
      HEADER_SIZE + (|blobs| + 1) * ENTRY_SIZE > MAX_HEADER_SIZE
    }
  }
}
