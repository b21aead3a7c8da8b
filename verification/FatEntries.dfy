/** Return codes and the meaning of raw FAT entries. */
module FatEntries {
  import opened Bytes
  import opened Geometry

  datatype Status = Ok | Eof | BadCluster | FreeCluster | TryAgain | NoMore | Failed | Invalid | Unknown
                  | NotFound | InsufficientResource | DeviceError

  /** What a FAT entry says; `Outside` stands for an entry number beyond the table. */
  datatype Link = Free | Bad | End | Next(clus: nat) | Outside

  /** fatfs16_getfatentry and fatfs32_getfatentry: the classification of a raw value. */
  function Decode(kind: FatKind, raw: nat): (l: Link)
    ensures !l.Outside? && (l.Next? ==> l.clus > 0)
  {
    if kind == Fat16 then
      if raw >= 0xFFF8 then End else if raw == 0xFFF7 then Bad else if raw == 0 then Free else Next(raw)
    else
      var v := raw % 0x1000_0000;
      if v >= 0x0FFF_FFF8 then End else if v == 0x0FFF_FFF7 then Bad else if v == 0 then Free else Next(v)
  }

  /** fatfs16_setfatentry and fatfs32_setfatentry: the raw value stored for a requested value. */
  function Encode(kind: FatKind, v: nat): (raw: nat)
    ensures kind == Fat16 ==> raw < 0x10000
    ensures raw < TWO32
  {
    if kind == Fat16 then
      if v == FATFS_EOF then 0xFFF8 else if v == FATFS_BADCLUSTER then 0xFFF7 else v % 0x10000
    else if v == FATFS_EOF then 0x0FFF_FFF8 else if v == FATFS_BADCLUSTER then 0x0FFF_FFF7 else U32(v)
  }

  /** The link a caller of setfatentry means by a value. */
  function Meaning(v: nat): Link {
    if v == FATFS_EOF then End else if v == FATFS_BADCLUSTER then Bad else if v == 0 then Free else Next(v)
  }

  /** What is stored is read back as what was meant, for every cluster number of the volume. */
  lemma DecodeEncode(kind: FatKind, v: nat)
    requires v in {0, FATFS_EOF, FATFS_BADCLUSTER} || v < if kind == Fat16 then 0xFFF7 else FATFS_BADCLUSTER
    ensures Decode(kind, Encode(kind, v)) == Meaning(v)
  {}

  function Look(links: seq<Link>, c: nat): Link {
    if c < |links| then links[c] else Outside
  }

  function StatusOf(l: Link): Status {
    match l
    case Free => FreeCluster
    case Bad => BadCluster
    case End => Eof
    case Next(_) => Ok
    case Outside => Invalid
  }

  function LinkAt(kind: FatKind, image: seq<byte>, w: nat, i: nat): Link {
    if (i + 1) * w <= |image| then Decode(kind, Le(Chunk(image, w, i))) else Outside
  }

  /** `links` gives the meaning of the first |links| entries of the FAT `image`. */
  ghost predicate IsTable(kind: FatKind, image: seq<byte>, w: nat, links: seq<Link>) {
    && |links| * w <= |image|
    && forall i :: 0 <= i < |links| ==> links[i] == LinkAt(kind, image, w, i)
  }

  /** Overwriting one entry changes exactly that link. */
  lemma TableUpdate(kind: FatKind, image: seq<byte>, w: nat, links: seq<Link>, i: nat, raw: nat)
    requires IsTable(kind, image, w, links) && i < |links| && raw < Pow256(w)
    ensures i * w + w <= |image|
    ensures IsTable(kind, Splice(image, i * w, ToLe(raw, w)), w, links[i := Decode(kind, raw)])
  {
    hide Splice, Decode, Le, Chunk, ToLe, Pow256;
    MulLe(i + 1, |links|, w);
    MulSum(i, 1, w);
    var image' := Splice(image, i * w, ToLe(raw, w));
    forall j | 0 <= j < |links|
      ensures links[i := Decode(kind, raw)][j] == LinkAt(kind, image', w, j)
    {
      MulLe(j + 1, |links|, w);
      EntryAfter(image, w, i, raw, j);
    }
  }

  lemma EntryAfter(image: seq<byte>, w: nat, i: nat, raw: nat, j: nat)
    requires (i + 1) * w <= |image| && (j + 1) * w <= |image| && raw < Pow256(w)
    ensures i * w + w <= |image|
    ensures Le(Chunk(Splice(image, i * w, ToLe(raw, w)), w, j)) == if i == j then raw else Le(Chunk(image, w, j))
  {
    hide Splice, Le, ToLe, Pow256;
    MulSum(i, 1, w);
    var e := ToLe(raw, w);
    SpliceChunks(image, w, i, e, 0, 1, j);
    assert e[0 * w..(0 + 1) * w] == e;
    LeOfToLe(raw, w);
  }

  /** Whether the FAT has all bytes of entry `i`. */
  predicate HasEntry(kind: FatKind, image: seq<byte>, i: nat) {
    if kind == Fat16 then 2 * i + 2 <= |image| else 4 * i + 4 <= |image|
  }

  /** The number in the bytes of entry `i`: 16 bits, or the low 28 of 32. */
  function EntryNumber(kind: FatKind, image: seq<byte>, i: nat): nat
    requires HasEntry(kind, image, i)
  {
    if kind == Fat16 then Number(image[2 * i], image[2 * i + 1], 0, 0)
    else Number(image[4 * i], image[4 * i + 1], image[4 * i + 2], image[4 * i + 3] % 16)
  }

  /** What an entry with the number `n` answers when it is read: every number from `top` on ends a chain, and the
      one before marks a bad cluster. */
  ghost predicate Says(n: nat, top: nat, st: Status, v: nat) {
    && (st == Eof <==> n >= top) && (st == BadCluster <==> n == top - 1) && (st == FreeCluster <==> n == 0)
    && (st == Ok <==> 0 < n < top - 1) && (st == Ok ==> v == n)
  }

  /** The status of an entry, from its bytes. */
  ghost predicate EntrySays(kind: FatKind, image: seq<byte>, i: nat, st: Status, v: nat) {
    HasEntry(kind, image, i)
    && Says(EntryNumber(kind, image, i), if kind == Fat16 then 0xFFF8 else 0x0FFF_FFF8, st, v)
  }

  lemma EntryMeans(kind: FatKind, image: seq<byte>, w: nat, i: nat)
    requires w == (if kind == Fat16 then 2 else 4) && (i + 1) * w <= |image|
    ensures var l := Decode(kind, Le(Chunk(image, w, i)));
      EntrySays(kind, image, i, StatusOf(l), if l.Next? then l.clus else 0)
  {
    hide Le, Chunk, Decode, Says, EntryNumber;
    var c := Chunk(image, w, i);
    EntryBytes(kind, image, w, i);
    if kind == Fat16 {
      LeTwo(c);
    } else {
      LeFour(c);
      LowBits(c[0], c[1], c[2], c[3]);
    }
    DecodeSays(kind, Le(c), EntryNumber(kind, image, i));
  }

  /** The bytes of an entry. */
  lemma EntryBytes(kind: FatKind, image: seq<byte>, w: nat, i: nat)
    requires w == (if kind == Fat16 then 2 else 4) && (i + 1) * w <= |image|
    ensures HasEntry(kind, image, i) && |Chunk(image, w, i)| == w
    ensures var c := Chunk(image, w, i);
      EntryNumber(kind, image, i) ==
        if kind == Fat16 then Number(c[0], c[1], 0, 0) else Number(c[0], c[1], c[2], c[3] % 16)
  {
    hide Number;
    assert i * w == if kind == Fat16 then 2 * i else 4 * i;
  }

  /** The classification of a raw value of which `n` is what counts. */
  lemma DecodeSays(kind: FatKind, raw: nat, n: nat)
    requires n == if kind == Fat16 then raw else raw % 0x1000_0000
    ensures var l := Decode(kind, raw);
      Says(n, if kind == Fat16 then 0xFFF8 else 0x0FFF_FFF8, StatusOf(l), if l.Next? then l.clus else 0)
  {}

  lemma LeTwo(s: seq<byte>)
    requires |s| == 2
    ensures Le(s) == Number(s[0], s[1], 0, 0)
  {
    assert Le(s[1..]) == s[1] + 256 * Le(s[1..][1..]);
  }

  lemma LeFour(s: seq<byte>)
    requires |s| == 4
    ensures Le(s) == Number(s[0], s[1], s[2], s[3])
  {
    assert Le(s) == s[0] + 256 * Le(s[1..]);
    assert Le(s[1..]) == s[1] + 256 * Le(s[2..]) by {
      assert s[1..][1..] == s[2..];
    }
    LeTwo(s[2..]);
  }

  lemma LowBits(a: byte, b: byte, c: byte, d: byte)
    ensures Number(a, b, c, d) % 0x1000_0000 == Number(a, b, c, d % 16)
  {
    var low, q := Number(a, b, c, d % 16), d / 16;
    assert d == 16 * q + d % 16;
    assert low < 0x1000_0000 && Number(a, b, c, d) == low + 0x1000_0000 * q;
    LowPart(low, q);
  }

  lemma LowPart(low: nat, q: nat)
    requires low < 0x1000_0000
    ensures (low + 0x1000_0000 * q) % 0x1000_0000 == low
  {}

  /** The marks that are stored, of all that are read as the end of a chain or a bad cluster; any other value is
      stored as it is if it fits. */
  lemma MarksStored(v: nat)
    ensures Encode(Fat16, FATFS_EOF) == 0xFFF8 && Encode(Fat16, FATFS_BADCLUSTER) == 0xFFF7
    ensures Encode(Fat32, FATFS_EOF) == 0x0FFF_FFF8 && Encode(Fat32, FATFS_BADCLUSTER) == 0x0FFF_FFF7
    ensures v < 0x10000 ==> Encode(Fat16, v) == v
    ensures v < TWO32 ==> Encode(Fat32, v) == v
  {}

  /** fatfs32_setfatentry writes all 32 bits: whatever the four reserved ones held, they are zero afterwards, and
      the entry says the same if they are not. */
  lemma ReservedBits(v: nat, raw: nat)
    requires v in {0, FATFS_EOF, FATFS_BADCLUSTER} || v < FATFS_BADCLUSTER
    ensures Encode(Fat32, v) / 0x1000_0000 == 0
    ensures Decode(Fat32, raw) == Decode(Fat32, raw % 0x1000_0000)
  {}
}
