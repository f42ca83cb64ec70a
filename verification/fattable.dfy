/** get_fat and put_fat: FAT12, FAT16 and FAT32 entries read and written through the window. */
module FatTable {
  import opened Words
  import opened Volume

  // ---------------------------------------------------------------- the table as bytes

  lemma FatSector(g: Geometry, k: nat)
    requires g.Valid() && k < g.fsize * SS
    ensures var s := g.fatbase + k / SS; s < g.total && g.InFat(s) && !g.InMirror(s)
    ensures 0 <= k % SS < SS
  {
    var q := k / SS;
    assert k == q * SS + k % SS;
  }

  /** The bytes of the first FAT. */
  function Image(g: Geometry, l: seq<Sector>): (img: seq<u8>)
    requires g.Valid() && |l| == g.total
    ensures |img| == g.fsize * SS
  {
    seq(g.fsize * SS, k requires 0 <= k < g.fsize * SS => FatSector(g, k); l[g.fatbase + k / SS][k % SS])
  }

  lemma ImageAt(g: Geometry, l: seq<Sector>, k: nat)
    requires g.Valid() && |l| == g.total && k < g.fsize * SS
    ensures g.fatbase + k / SS < g.total && 0 <= k % SS < SS && Image(g, l)[k] == l[g.fatbase + k / SS][k % SS]
  {
    FatSector(g, k);
  }

  /** First byte and number of bytes of entry c. */
  function Offset(t: FatType, c: nat): nat {
    match t case Fat12 => c + c / 2 case Fat16 => c * 2 case Fat32 => c * 4
  }

  function Span(t: FatType): nat {
    match t case Fat12 => 2 case Fat16 => 2 case Fat32 => 4
  }

  /** Entries count modulo this. */
  function Width(t: FatType): nat {
    match t case Fat12 => 0x1000 case Fat16 => 0x1_0000 case Fat32 => 0x1000_0000
  }

  predicate Fits(t: FatType, img: seq<u8>, c: nat) {
    Offset(t, c) + Span(t) <= |img|
  }

  /** LD_WORD and LD_DWORD */
  function Word(b0: u8, b1: u8): int {
    0x100 * b1 + b0
  }

  function Dword(b0: u8, b1: u8, b2: u8, b3: u8): int {
    0x100_0000 * b3 + 0x1_0000 * b2 + 0x100 * b1 + b0
  }

  function Unpack12(odd: bool, b0: u8, b1: u8): nat {
    if odd then Word(b0, b1) / 0x10 else Word(b0, b1) % 0x1000
  }

  function Entry(t: FatType, img: seq<u8>, c: nat): (v: nat)
    requires Fits(t, img, c)
    ensures v < Width(t)
  {
    var p := Offset(t, c);
    match t
    case Fat12 => Unpack12(c % 2 == 1, img[p], img[p + 1])
    case Fat16 => Word(img[p], img[p + 1])
    case Fat32 => Dword(img[p], img[p + 1], img[p + 2], img[p + 3]) % 0x1000_0000
  }

  function OrNibble(a: nat, b: nat): (r: nat)
    requires a < 0x10 && b < 0x10
    ensures r < 0x10 && (b == 0 ==> r == a)
  {
    Or(a % 2, b % 2) + 2 * Or(a / 2 % 2, b / 2 % 2) + 4 * Or(a / 4 % 2, b / 4 % 2) + 8 * Or(a / 8, b / 8)
  }

  /** Of single bits. */
  function Or(a: nat, b: nat): nat {
    if a == 1 || b == 1 then 1 else 0
  }

  /** The byte put_fat stores i places after the start of an entry, over the byte b. */
  function StoredByte(t: FatType, odd: bool, b: u8, v: nat, i: nat): u8
    requires i < Span(t) && v < TWO32
  {
    match t
    case Fat12 =>
      if i == 0 then (if odd then b % 0x10 + v % 0x10 * 0x10 else v % 0x100)
      else (if odd then v / 0x10 % 0x100 else b / 0x10 * 0x10 + v / 0x100 % 0x10)
    case Fat16 => if i == 0 then v % 0x100 else v / 0x100 % 0x100
    case Fat32 =>
      if i == 0 then v % 0x100
      else if i == 1 then v / 0x100 % 0x100
      else if i == 2 then v / 0x1_0000 % 0x100
      else v / 0x100_0000 % 0x10 + OrNibble(b / 0x10, v / 0x1000_0000) * 0x10
  }

  /** img with the first n bytes of entry c replaced by those of v. */
  function Stored(t: FatType, img: seq<u8>, c: nat, v: nat, n: nat): (r: seq<u8>)
    requires Fits(t, img, c) && n <= Span(t) && v < TWO32
    ensures |r| == |img|
    ensures forall k :: 0 <= k < |img| ==>
              r[k] == if Offset(t, c) <= k < Offset(t, c) + n then StoredByte(t, c % 2 == 1, img[k], v, k - Offset(t, c)) else img[k]
  {
    if n == 0 then img
    else Stored(t, img, c, v, n - 1)[Offset(t, c) + n - 1 := StoredByte(t, c % 2 == 1, img[Offset(t, c) + n - 1], v, n - 1)]
  }

  lemma EntryWord(t: FatType, img: seq<u8>, c: nat, b0: u8, b1: u8)
    requires t != Fat32 && Fits(t, img, c) && b0 == img[Offset(t, c)] && b1 == img[Offset(t, c) + 1]
    ensures Entry(t, img, c) == if t == Fat12 then Unpack12(c % 2 == 1, b0, b1) else Word(b0, b1)
  {
  }

  lemma EntryDword(img: seq<u8>, c: nat, b0: u8, b1: u8, b2: u8, b3: u8)
    requires Fits(Fat32, img, c)
    requires b0 == img[c * 4] && b1 == img[c * 4 + 1] && b2 == img[c * 4 + 2] && b3 == img[c * 4 + 3]
    ensures Entry(Fat32, img, c) == Dword(b0, b1, b2, b3) % 0x1000_0000
  {
  }

  /** How the halves of a FAT12 entry sit in its two bytes. */
  lemma Nibbles(odd: bool, b0: u8, b1: u8)
    ensures Unpack12(odd, b0, b1) == if odd then b0 / 0x10 + 0x10 * b1 else b0 + 0x100 * (b1 % 0x10)
  {
    if odd {
      DivUnique(Word(b0, b1), 0x10, b0 / 0x10 + 0x10 * b1, b0 % 0x10);
    } else {
      DivUnique(Word(b0, b1), 0x1000, b1 / 0x10, b0 + 0x100 * (b1 % 0x10));
    }
  }

  lemma HexDigits(v: nat)
    ensures v % 0x100 == v % 0x10 + 0x10 * (v / 0x10 % 0x10)
    ensures v / 0x10 % 0x100 == v / 0x10 % 0x10 + 0x10 * (v / 0x100 % 0x10)
    ensures v % 0x1000 == v % 0x100 + 0x100 * (v / 0x100 % 0x10)
    ensures v % 0x1000 == v % 0x10 + 0x10 * (v / 0x10 % 0x100)
  {
    var a := v / 0x10;
    var b := a / 0x10;
    DigitsAt(v % 0x10, a % 0x10, b % 0x10, b / 0x10, v);
  }

  lemma DigitsAt(n0: int, n1: int, n2: int, c: int, v: nat)
    requires 0 <= n0 < 0x10 && 0 <= n1 < 0x10 && 0 <= n2 < 0x10 && v == n0 + 0x10 * (n1 + 0x10 * (n2 + 0x10 * c))
    ensures v % 0x10 == n0 && v / 0x10 % 0x10 == n1 && v / 0x100 % 0x10 == n2
    ensures v % 0x100 == n0 + 0x10 * n1 && v / 0x10 % 0x100 == n1 + 0x10 * n2
    ensures v % 0x1000 == n0 + 0x10 * n1 + 0x100 * n2
  {
    DivUnique(v, 0x10, n1 + 0x10 * (n2 + 0x10 * c), n0);
    DivUnique(n1 + 0x10 * (n2 + 0x10 * c), 0x10, n2 + 0x10 * c, n1);
    DivUnique(v, 0x100, n2 + 0x10 * c, n0 + 0x10 * n1);
    DivUnique(n2 + 0x10 * c, 0x10, c, n2);
    DivUnique(n1 + 0x10 * (n2 + 0x10 * c), 0x100, c, n1 + 0x10 * n2);
    DivUnique(v, 0x1000, c, n0 + 0x10 * n1 + 0x100 * n2);
  }

  lemma Stored12(odd: bool, w0: u8, w1: u8, v: nat)
    requires v < TWO32
    ensures Unpack12(odd, StoredByte(Fat12, odd, w0, v, 0), StoredByte(Fat12, odd, w1, v, 1)) == v % 0x1000
    ensures odd ==> StoredByte(Fat12, odd, w0, v, 0) % 0x10 == w0 % 0x10
    ensures !odd ==> StoredByte(Fat12, odd, w1, v, 1) / 0x10 == w1 / 0x10
  {
    hide Unpack12;
    HexDigits(v);
    var n0, n2 := v % 0x10, v / 0x100 % 0x10;
    Nibbles(odd, StoredByte(Fat12, odd, w0, v, 0), StoredByte(Fat12, odd, w1, v, 1));
    if odd {
      DivUnique(w0 % 0x10 + n0 * 0x10, 0x10, n0, w0 % 0x10);
    } else {
      DivUnique(w1 / 0x10 * 0x10 + n2, 0x10, w1 / 0x10, n2);
    }
  }

  lemma ByteDigits(v: nat)
    ensures v == v % 0x100 + 0x100 * (v / 0x100 % 0x100) + 0x1_0000 * (v / 0x1_0000)
    ensures v == v % 0x100 + 0x100 * (v / 0x100 % 0x100) + 0x1_0000 * (v / 0x1_0000 % 0x100) + 0x100_0000 * (v / 0x100_0000)
  {
    var a, b, c := v / 0x100, v / 0x1_0000, v / 0x100_0000;
    DivUnique(a, 0x100, b, a % 0x100) by { assert v == 0x1_0000 * b + v % 0x1_0000; }
    DivUnique(b, 0x100, c, b % 0x100) by { assert v == 0x100_0000 * c + v % 0x100_0000; }
  }

  lemma Stored16(odd: bool, w0: u8, w1: u8, v: nat)
    requires v < TWO32
    ensures Word(StoredByte(Fat16, odd, w0, v, 0), StoredByte(Fat16, odd, w1, v, 1)) == v % 0x1_0000
  {
    ByteDigits(v);
    DivUnique(v, 0x1_0000, v / 0x1_0000, v % 0x100 + 0x100 * (v / 0x100 % 0x100));
  }

  lemma Stored32(odd: bool, w0: u8, w1: u8, w2: u8, w3: u8, v: nat)
    requires v < TWO32
    ensures Dword(StoredByte(Fat32, odd, w0, v, 0), StoredByte(Fat32, odd, w1, v, 1),
                  StoredByte(Fat32, odd, w2, v, 2), StoredByte(Fat32, odd, w3, v, 3)) % 0x1000_0000 == v % 0x1000_0000
    ensures StoredByte(Fat32, odd, w3, v, 3) / 0x10 == OrNibble(w3 / 0x10, v / 0x1000_0000)
  {
    hide OrNibble;
    ByteDigits(v);
    var top, b := v / 0x1000_0000, v / 0x100_0000;
    DivUnique(b, 0x10, top, b % 0x10) by { assert v == 0x1000_0000 * top + v % 0x1000_0000; }
    var low := v - 0x1000_0000 * top;
    DivUnique(v, 0x1000_0000, top, low);
    TopNibble(v % 0x100, v / 0x100 % 0x100, v / 0x1_0000 % 0x100, b % 0x10, OrNibble(w3 / 0x10, top), low);
  }

  lemma TopNibble(b0: u8, b1: u8, b2: u8, b3: u8, r: int, v: nat)
    requires v == b0 + 0x100 * b1 + 0x1_0000 * b2 + 0x100_0000 * b3 && b3 < 0x10 && 0 <= r < 0x10
    ensures Dword(b0, b1, b2, b3 + r * 0x10) % 0x1000_0000 == v && (b3 + r * 0x10) / 0x10 == r
  {
    DivUnique(v + r * 0x1000_0000, 0x1000_0000, r, v);
    DivUnique(b3 + r * 0x10, 0x10, r, b3);
  }

  lemma StoredAt(t: FatType, img: seq<u8>, c: nat, v: nat, i: nat)
    requires Fits(t, img, c) && v < TWO32 && i < Span(t)
    ensures Stored(t, img, c, v, Span(t))[Offset(t, c) + i] == StoredByte(t, c % 2 == 1, img[Offset(t, c) + i], v, i)
  {
  }

  /** Reading back gives the value at the type's width. */
  lemma StoredReadsBack(t: FatType, img: seq<u8>, c: nat, v: nat)
    requires Fits(t, img, c) && v < TWO32
    ensures Entry(t, Stored(t, img, c, v, Span(t)), c) == v % Width(t)
  {
    hide Stored, StoredByte, Unpack12, Word, Dword;
    var p, r := Offset(t, c), Stored(t, img, c, v, Span(t));
    StoredAt(t, img, c, v, 0);
    StoredAt(t, img, c, v, 1);
    match t
    case Fat12 =>
      EntryWord(t, r, c, r[p], r[p + 1]);
      Stored12(c % 2 == 1, img[p], img[p + 1], v);
    case Fat16 =>
      EntryWord(t, r, c, r[p], r[p + 1]);
      Stored16(c % 2 == 1, img[p], img[p + 1], v);
    case Fat32 =>
      StoredAt(t, img, c, v, 2);
      StoredAt(t, img, c, v, 3);
      EntryDword(r, c, r[p], r[p + 1], r[p + 2], r[p + 3]);
      Stored32(c % 2 == 1, img[p], img[p + 1], img[p + 2], img[p + 3], v);
  }

  /** No other entry changes, not even halfway, nor one that shares a byte. */
  lemma StoredKeepsOthers(t: FatType, img: seq<u8>, c: nat, v: nat, n: nat, d: nat)
    requires Fits(t, img, c) && Fits(t, img, d) && n <= Span(t) && v < TWO32 && c != d
    ensures Entry(t, Stored(t, img, c, v, n), d) == Entry(t, img, d)
  {
    if t == Fat12 {
      var p, q, r := Offset(t, c), Offset(t, d), Stored(t, img, c, v, n);
      Stored12(c % 2 == 1, img[p], img[p + 1], v);
      Nibbles(d % 2 == 1, img[q], img[q + 1]);
      Nibbles(d % 2 == 1, r[q], r[q + 1]);
      hide Unpack12, Stored, StoredByte;
    }
  }

  /** The four reserved bits of a FAT32 entry survive a value of 28 bits; of a longer one the upper bits are or-ed in. */
  lemma StoredKeepsReserved(img: seq<u8>, c: nat, v: nat)
    requires Fits(Fat32, img, c) && v < TWO32
    ensures Stored(Fat32, img, c, v, 4)[c * 4 + 3] / 0x10 == OrNibble(img[c * 4 + 3] / 0x10, v / 0x1000_0000)
    ensures v <= 0x0FFF_FFFF ==> Stored(Fat32, img, c, v, 4)[c * 4 + 3] / 0x10 == img[c * 4 + 3] / 0x10
  {
    Stored32(c % 2 == 1, img[c * 4], img[c * 4 + 1], img[c * 4 + 2], img[c * 4 + 3], v);
    StoredAt(Fat32, img, c, v, 3);
  }

  lemma EntryFits(g: Geometry, img: seq<u8>, c: nat)
    requires g.Valid() && |img| == g.fsize * SS && c < g.nFatent
    ensures Fits(g.fsType, img, c)
  {
  }

  function Byte(img: seq<u8>, k: nat): int {
    if k < |img| then img[k] else 0
  }

  /** Where the entries are, byte by byte: low bytes first, FAT12 entries in pairs of three bytes. */
  lemma EntryLayout(img: seq<u8>, c: nat)
    ensures var p := c + c / 2;
            p + 1 < |img| ==>
              Entry(Fat12, img, c) == if c % 2 == 1 then Byte(img, p) / 0x10 + 0x10 * Byte(img, p + 1)
                                      else Byte(img, p) + 0x100 * (Byte(img, p + 1) % 0x10)
    ensures 2 * c + 1 < |img| ==> Entry(Fat16, img, c) == Byte(img, 2 * c) + 0x100 * Byte(img, 2 * c + 1)
    ensures 4 * c + 3 < |img| ==>
              Entry(Fat32, img, c)
              == Byte(img, 4 * c) + 0x100 * Byte(img, 4 * c + 1) + 0x1_0000 * Byte(img, 4 * c + 2)
                 + 0x100_0000 * (Byte(img, 4 * c + 3) % 0x10)
  {
    var p := c + c / 2;
    if p + 1 < |img| {
      Nibbles(c % 2 == 1, img[p], img[p + 1]);
    }
    if 4 * c + 3 < |img| {
      var b3 := Byte(img, 4 * c + 3);
      var low := Byte(img, 4 * c) + 0x100 * Byte(img, 4 * c + 1) + 0x1_0000 * Byte(img, 4 * c + 2);
      DivUnique(low + 0x100_0000 * b3, 0x1000_0000, b3 / 0x10, low + 0x100_0000 * (b3 % 0x10));
    }
  }

  /** What storing v leaves in these bytes. */
  lemma StoredLayout(img: seq<u8>, c: nat, v: nat)
    requires v < TWO32
    ensures var p := c + c / 2;
            p + 1 < |img| ==>
              var r := Stored(Fat12, img, c, v, 2);
              if c % 2 == 1 then r[p] == img[p] % 0x10 + 0x10 * (v % 0x10) && r[p + 1] == v / 0x10 % 0x100
              else r[p] == v % 0x100 && r[p + 1] == img[p + 1] / 0x10 * 0x10 + v / 0x100 % 0x10
    ensures 2 * c + 1 < |img| ==>
              var r := Stored(Fat16, img, c, v, 2);
              r[2 * c] == v % 0x100 && r[2 * c + 1] == v / 0x100 % 0x100
    ensures 4 * c + 3 < |img| ==>
              var r := Stored(Fat32, img, c, v, 4);
              && r[4 * c] == v % 0x100 && r[4 * c + 1] == v / 0x100 % 0x100 && r[4 * c + 2] == v / 0x1_0000 % 0x100
              && r[4 * c + 3] % 0x10 == v / 0x100_0000 % 0x10
              && (v < 0x1000_0000 ==> r[4 * c + 3] / 0x10 == img[4 * c + 3] / 0x10)
  {
    hide OrNibble;
    if 4 * c + 3 < |img| {
      var top := OrNibble(img[4 * c + 3] / 0x10, v / 0x1000_0000);
      DivUnique(v / 0x100_0000 % 0x10 + top * 0x10, 0x10, top, v / 0x100_0000 % 0x10);
      StoredKeepsReserved(img, c, v);
    }
  }

  /** For instance bytes 05 00 of a FAT16 entry are 5. */
  lemma FiveInFat16(img: seq<u8>)
    requires 6 <= |img| && img[4] == 5 && img[5] == 0
    ensures Entry(Fat16, img, 2) == 5
  {
    EntryLayout(img, 2);
  }

  /** The table is where the boot sector says: byte k of it is byte k modulo 512 of sector fatbase + k / 512. */
  function TableByte(g: Geometry, l: seq<Sector>, k: nat): int
    requires g.Valid() && |l| == g.total
  {
    if k < g.fsize * 512 then
      FatSector(g, k);
      l[g.fatbase + k / 512][k % 512]
    else 0
  }

  /** So the entries of the FAT read from the disk as the format lays them out. */
  lemma FatLayout(g: Geometry, l: seq<Sector>, c: nat)
    requires g.Valid() && |l| == g.total && c < g.nFatent
    ensures
      var p := c + c / 2;
      Fat(g, l)[c] ==
      match g.fsType
      case Fat12 =>
        if c % 2 == 1 then TableByte(g, l, p) / 0x10 + 0x10 * TableByte(g, l, p + 1)
        else TableByte(g, l, p) + 0x100 * (TableByte(g, l, p + 1) % 0x10)
      case Fat16 => TableByte(g, l, 2 * c) + 0x100 * TableByte(g, l, 2 * c + 1)
      case Fat32 =>
        TableByte(g, l, 4 * c) + 0x100 * TableByte(g, l, 4 * c + 1) + 0x1_0000 * TableByte(g, l, 4 * c + 2)
        + 0x100_0000 * (TableByte(g, l, 4 * c + 3) % 0x10)
  {
    hide Entry, Image, TableByte, Geometry.Valid;
    var img := Image(g, l);
    assert |img| == g.fsize * SS && Fat(g, l)[c] == Entry(g.fsType, img, c) by { FatAt(g, l, c); }
    EntryFits(g, img, c);
    EntryLayout(img, c);
    ImageBytes(g, l);
    hide Fat;
  }

  lemma ImageBytes(g: Geometry, l: seq<Sector>)
    requires g.Valid() && |l| == g.total
    ensures |Image(g, l)| == g.fsize * SS && forall k :: 0 <= k < g.fsize * SS ==> Image(g, l)[k] == TableByte(g, l, k)
  {
    hide Image;
    forall k | 0 <= k < g.fsize * SS
      ensures k < |Image(g, l)| && Image(g, l)[k] == TableByte(g, l, k)
    {
      ImageAt(g, l, k);
    }
    ImageSize(g, l);
  }

  lemma ImageSize(g: Geometry, l: seq<Sector>)
    requires g.Valid() && |l| == g.total
    ensures |Image(g, l)| == g.fsize * SS
  {
  }

  /** The table as a sequence of entries. */
  function Fat(g: Geometry, l: seq<Sector>): (fat: seq<nat>)
    requires g.Valid() && |l| == g.total
    ensures |fat| == g.nFatent
  {
    var img := Image(g, l);
    seq(g.nFatent, c requires 0 <= c < g.nFatent => EntryFits(g, img, c); Entry(g.fsType, img, c))
  }

  /** Sectors outside the FATs are the same. */
  ghost predicate SameData(g: Geometry, l: seq<Sector>, l': seq<Sector>) {
    && |l| == |l'|
    && forall s :: 0 <= s < |l| && !g.InFat(s) && !g.InMirror(s) ==> l'[s] == l[s]
  }

  /** Where get_fat and put_fat leave the window. */
  ghost predicate WindowAt(fs: Fatfs, before: u32)
    reads fs`winsect
  {
    fs.winsect == before || fs.winsect == NOSECT || fs.geo.InFat(fs.winsect)
  }

  /** The byte of the table at k, seen through the window. */
  lemma WindowByte(fs: Fatfs, k: nat)
    requires fs.Valid() && k < fs.geo.fsize * SS && fs.winsect == fs.geo.fatbase + k / SS
    ensures 0 <= k % SS < SS && fs.win[k % SS] == Image(fs.geo, fs.Logical())[k]
  {
    hide Image;
    FatSector(fs.geo, k);
    ImageAt(fs.geo, fs.Logical(), k);
  }

  lemma FatAt(g: Geometry, l: seq<Sector>, c: nat)
    requires g.Valid() && |l| == g.total && c < g.nFatent
    ensures Fits(g.fsType, Image(g, l), c) && Fat(g, l)[c] == Entry(g.fsType, Image(g, l), c)
    ensures Fat(g, l)[c] < Width(g.fsType)
  {
    EntryFits(g, Image(g, l), c);
  }

  // ---------------------------------------------------------------- get_fat

  /** The window moved to the byte at k of the table. */
  method SeekByte(fs: Fatfs, k: nat) returns (res: FResult)
    requires fs.Valid() && k < fs.geo.fsize * SS
    modifies fs`disk, fs`winsect, fs`win, fs`wflag, fs`faults
    ensures fs.Valid() && fs.Logical() == old(fs.Logical()) && res in {Ok, DiskErr} && WindowAt(fs, old(fs.winsect))
    ensures res == Ok ==> fs.winsect == fs.geo.fatbase + k / SS && fs.win[k % SS] == Image(fs.geo, fs.Logical())[k]
    ensures old(fs.Healthy()) ==> fs.Healthy() && res == Ok
    ensures old(fs.Healthy()) && old(fs.CopiesAgree()) ==> fs.CopiesAgree()
  {
    FatSector(fs.geo, k);
    res := fs.MoveWindow(fs.geo.fatbase + k / SS);
    if res == Ok {
      WindowByte(fs, k);
    }
  }

  /** LD_WORD and LD_DWORD on an entry that lies within one sector. */
  method LoadAligned(fs: Fatfs, k: nat, n: nat) returns (res: FResult, b: seq<u8>)
    requires fs.Valid() && n in {2, 4} && MultipleOf(k, n) && k + n <= fs.geo.fsize * SS
    modifies fs`disk, fs`winsect, fs`win, fs`wflag, fs`faults
    ensures fs.Valid() && fs.Logical() == old(fs.Logical()) && res in {Ok, DiskErr} && WindowAt(fs, old(fs.winsect))
    ensures res == Ok ==> |b| == n && forall i :: 0 <= i < n ==> b[i] == Image(fs.geo, fs.Logical())[k + i]
    ensures old(fs.Healthy()) ==> fs.Healthy() && res == Ok
    ensures old(fs.Healthy()) && old(fs.CopiesAgree()) ==> fs.CopiesAgree()
  {
    hide Image, MultipleOf;
    b := [];
    res := SeekByte(fs, k);
    if res == Ok {
      AlignedRoom(k, n);
      b := fs.win[k % SS..k % SS + n];
      forall i | 0 <= i < n
        ensures b[i] == Image(fs.geo, fs.Logical())[k + i]
      {
        SameWindow(fs, k, n, i);
      }
    }
  }

  method GetFat(fs: Fatfs, clst: nat) returns (val: u32)
    requires fs.Valid()
    modifies fs`disk, fs`winsect, fs`win, fs`wflag, fs`faults
    ensures fs.Valid() && fs.Logical() == old(fs.Logical()) && WindowAt(fs, old(fs.winsect))
    ensures !(2 <= clst < fs.geo.nFatent) ==> val == 1
    ensures 2 <= clst < fs.geo.nFatent ==> val == NOSECT || val == Fat(fs.geo, fs.Logical())[clst]
    ensures old(fs.Healthy()) ==> fs.Healthy() && val != NOSECT
    ensures old(fs.Healthy()) && old(fs.CopiesAgree()) ==> fs.CopiesAgree()
  {
    hide Image, Stored, Unpack12, Word, Dword, MultipleOf, Entry, Fat;
    if clst < 2 || clst >= fs.geo.nFatent {
      return 1;
    }
    val := NOSECT;
    ghost var img := Image(fs.geo, fs.Logical());
    FatAt(fs.geo, fs.Logical(), clst);
    match fs.geo.fsType {
      case Fat12 =>
        var bc := clst + clst / 2;
        var res := SeekByte(fs, bc);
        if res != Ok { return; }
        var low := fs.win[bc % SS];
        bc := bc + 1;
        res := SeekByte(fs, bc);
        if res != Ok { return; }
        EntryWord(Fat12, img, clst, low, fs.win[bc % SS]);
        val := Unpack12(clst % 2 == 1, low, fs.win[bc % SS]);
      case Fat16 =>
        IsMultiple(clst * 2, 2, clst);
        var res, b := LoadAligned(fs, clst * 2, 2);
        if res != Ok { return; }
        assert b[0] == img[clst * 2 + 0];
        EntryWord(Fat16, img, clst, b[0], b[1]);
        val := Word(b[0], b[1]);
      case Fat32 =>
        IsMultiple(clst * 4, 4, clst);
        var res, b := LoadAligned(fs, clst * 4, 4);
        if res != Ok { return; }
        assert b[0] == img[clst * 4 + 0];
        EntryDword(img, clst, b[0], b[1], b[2], b[3]);
        val := Dword(b[0], b[1], b[2], b[3]) % 0x1000_0000;
    }
  }

  /** An aligned entry lies within one sector. */
  lemma SameWindow(fs: Fatfs, k: nat, n: nat, i: nat)
    requires fs.Valid() && i < n && n in {2, 4} && MultipleOf(k, n) && k + n <= fs.geo.fsize * SS
    requires fs.winsect == fs.geo.fatbase + k / SS
    ensures (k + i) / SS == k / SS && (k + i) % SS == k % SS + i < SS
    ensures fs.win[k % SS + i] == Image(fs.geo, fs.Logical())[k + i]
  {
    hide Image;
    DivUnique(k + i, SS, k / SS, k % SS + i) by { AlignedRoom(k, n); }
    WindowByte(fs, k + i);
  }

  lemma AlignedRoom(k: nat, n: nat)
    requires n in {2, 4} && MultipleOf(k, n)
    ensures k % SS + n <= SS
  {
  }

  // ---------------------------------------------------------------- put_fat

  lemma SameByte(j: nat, k: nat)
    requires j / SS == k / SS && j % SS == k % SS
    ensures j == k
  {
    assert j == j / SS * SS + j % SS && k == k / SS * SS + k % SS;
  }

  /** Storing into the window stores into the table, and into nothing else. */
  lemma StoreInWindow(g: Geometry, disk: seq<Sector>, winsect: u32, win: Sector, k: nat, b: u8)
    requires g.Valid() && |disk| == g.total && k < g.fsize * SS && winsect == g.fatbase + k / SS
    ensures 0 <= k % SS < SS
    ensures
      var l, l' := Overlay(g, disk, winsect, win), Overlay(g, disk, winsect, win[k % SS := b]);
      Image(g, l') == Image(g, l)[k := b] && SameData(g, l, l')
  {
    hide Image;
    FatSector(g, k);
    var l, l' := Overlay(g, disk, winsect, win), Overlay(g, disk, winsect, win[k % SS := b]);
    forall j | 0 <= j < g.fsize * SS
      ensures Image(g, l')[j] == Image(g, l)[k := b][j]
    {
      ImageAt(g, l, j);
      ImageAt(g, l', j);
      FatSector(g, j);
      if j / SS == k / SS && j % SS == k % SS {
        SameByte(j, k);
      }
    }
  }

  method StoreByte(fs: Fatfs, k: nat, b: u8)
    requires fs.Valid() && k < fs.geo.fsize * SS && fs.winsect == fs.geo.fatbase + k / SS
    modifies fs`win, fs`wflag
    ensures fs.Valid() && Image(fs.geo, fs.Logical()) == Image(fs.geo, old(fs.Logical()))[k := b]
    ensures SameData(fs.geo, old(fs.Logical()), fs.Logical())
    ensures old(fs.CopiesAgree()) ==> fs.CopiesAgree()
  {
    hide Image, SameData, Overlay;
    FatSector(fs.geo, k);
    StoreInWindow(fs.geo, fs.disk, fs.winsect, fs.win, k, b);
    fs.win := fs.win[k % SS := b];
    fs.wflag := true;
  }

  lemma SameDataSelf(g: Geometry, l: seq<Sector>)
    ensures SameData(g, l, l)
  {
  }

  lemma SameDataTrans(g: Geometry, a: seq<Sector>, b: seq<Sector>, c: seq<Sector>)
    requires SameData(g, a, b) && SameData(g, b, c)
    ensures SameData(g, a, c)
  {
  }

  /** n bytes of entry c of the table before are stored, and nothing else has changed. */
  ghost predicate Progress(g: Geometry, before: seq<Sector>, l: seq<Sector>, c: nat, v: nat, n: nat)
    requires g.Valid() && |before| == |l| == g.total && 2 <= c < g.nFatent && v < TWO32 && n <= Span(g.fsType)
  {
    EntryFits(g, Image(g, before), c);
    Image(g, l) == Stored(g.fsType, Image(g, before), c, v, n) && SameData(g, before, l)
  }

  method StoreNext(fs: Fatfs, c: nat, v: nat, n: nat, ghost before: seq<Sector>)
    requires fs.Valid() && |before| == fs.geo.total && 2 <= c < fs.geo.nFatent && v < TWO32 && n < Span(fs.geo.fsType)
    requires Progress(fs.geo, before, fs.Logical(), c, v, n)
    requires fs.winsect == fs.geo.fatbase + (Offset(fs.geo.fsType, c) + n) / SS
    modifies fs`win, fs`wflag
    ensures fs.Valid() && Progress(fs.geo, before, fs.Logical(), c, v, n + 1)
    ensures old(fs.CopiesAgree()) ==> fs.CopiesAgree()
  {
    hide Image, SameData, Overlay, Fatfs.CopiesAgree;
    EntryFits(fs.geo, Image(fs.geo, before), c);
    var k := Offset(fs.geo.fsType, c) + n;
    WindowByte(fs, k);
    ghost var l := fs.Logical();
    StoreByte(fs, k, StoredByte(fs.geo.fsType, c % 2 == 1, fs.win[k % SS], v, n));
    SameDataTrans(fs.geo, before, l, fs.Logical());
    hide StoredByte;
  }

  /** What the stored bytes mean for the entries. */
  lemma StoredEntries(g: Geometry, before: seq<Sector>, l: seq<Sector>, c: nat, v: nat, n: nat)
    requires g.Valid() && |before| == |l| == g.total && 2 <= c < g.nFatent && v < TWO32 && n <= Span(g.fsType)
    requires Progress(g, before, l, c, v, n)
    ensures forall d :: 0 <= d < g.nFatent && d != c ==> Fat(g, l)[d] == Fat(g, before)[d]
    ensures n == Span(g.fsType) ==> Fat(g, l) == Fat(g, before)[c := v % Width(g.fsType)]
    ensures SameData(g, before, l)
  {
    hide Image, Stored, Entry, Fat, SameData;
    FatAt(g, before, c);
    FatAt(g, l, c);
    forall d | 0 <= d < g.nFatent && d != c
      ensures Fat(g, l)[d] == Fat(g, before)[d]
    {
      FatAt(g, before, d);
      FatAt(g, l, d);
      StoredKeepsOthers(g.fsType, Image(g, before), c, v, n, d);
    }
    StoredReadsBack(g.fsType, Image(g, before), c, v);
  }

  /** put_fat; of a value longer than the entry the upper bits are lost, or in FAT32 or-ed into the reserved ones. */
  method PutFat(fs: Fatfs, clst: nat, val: nat) returns (res: FResult)
    requires fs.Valid() && val < TWO32
    modifies fs`disk, fs`winsect, fs`win, fs`wflag, fs`faults
    ensures fs.Valid() && SameData(fs.geo, old(fs.Logical()), fs.Logical()) && WindowAt(fs, old(fs.winsect))
    ensures !(2 <= clst < fs.geo.nFatent) ==> res == IntErr && fs.Logical() == old(fs.Logical())
    ensures 2 <= clst < fs.geo.nFatent ==> res in {Ok, DiskErr}
    ensures res == Ok ==> Fat(fs.geo, fs.Logical()) == Fat(fs.geo, old(fs.Logical()))[clst := val % Width(fs.geo.fsType)]
    ensures res == Ok ==> fs.geo.InFat(fs.winsect)
    ensures forall d :: 0 <= d < fs.geo.nFatent && d != clst ==> Fat(fs.geo, fs.Logical())[d] == Fat(fs.geo, old(fs.Logical()))[d]
    ensures old(fs.Healthy()) ==> fs.Healthy() && (2 <= clst < fs.geo.nFatent ==> res == Ok)
    ensures old(fs.Healthy()) && old(fs.CopiesAgree()) ==> fs.CopiesAgree()
  {
    hide Image, SameData, Overlay, Fatfs.CopiesAgree, Fatfs.Healthy, Fat, Progress, MultipleOf;
    SameDataSelf(fs.geo, fs.Logical());
    if clst < 2 || clst >= fs.geo.nFatent {
      return IntErr;
    }
    ghost var before, n := fs.Logical(), 0;
    EntryFits(fs.geo, Image(fs.geo, before), clst);
    assert Progress(fs.geo, before, before, clst, val, 0) by { ProgressStart(fs.geo, before, clst, val); }
    var p := Offset(fs.geo.fsType, clst);
    res := SeekByte(fs, p);
    if res == Ok {
      StoreNext(fs, clst, val, 0, before);
      n := 1;
      if fs.geo.fsType == Fat12 {
        res := SeekByte(fs, p + 1);
        if res == Ok {
          StoreNext(fs, clst, val, 1, before);
          n := 2;
        }
      } else {
        n := StoreRest(fs, clst, val, before);
      }
    }
    StoredEntries(fs.geo, before, fs.Logical(), clst, val, n);
  }

  lemma ProgressStart(g: Geometry, l: seq<Sector>, c: nat, v: nat)
    requires g.Valid() && |l| == g.total && 2 <= c < g.nFatent && v < TWO32
    ensures Progress(g, l, l, c, v, 0)
  {
    EntryFits(g, Image(g, l), c);
  }

  /** The other bytes of an aligned entry are in the same sector. */
  method StoreRest(fs: Fatfs, c: nat, v: nat, ghost before: seq<Sector>) returns (ghost n: nat)
    requires fs.Valid() && |before| == fs.geo.total && 2 <= c < fs.geo.nFatent && v < TWO32 && fs.geo.fsType != Fat12
    requires Progress(fs.geo, before, fs.Logical(), c, v, 1)
    requires fs.winsect == fs.geo.fatbase + Offset(fs.geo.fsType, c) / SS
    modifies fs`win, fs`wflag
    ensures fs.Valid() && n == Span(fs.geo.fsType) && Progress(fs.geo, before, fs.Logical(), c, v, n)
    ensures old(fs.CopiesAgree()) ==> fs.CopiesAgree()
  {
    hide Image, SameData, Overlay, Fatfs.CopiesAgree, Progress;
    var i := 1;
    EntryInSector(fs.geo.fsType, c, 1);
    while i < Span(fs.geo.fsType)
      invariant 1 <= i <= Span(fs.geo.fsType) && fs.Valid() && Progress(fs.geo, before, fs.Logical(), c, v, i)
      invariant old(fs.CopiesAgree()) ==> fs.CopiesAgree()
    {
      EntryInSector(fs.geo.fsType, c, i);
      StoreNext(fs, c, v, i, before);
      i := i + 1;
    }
    n := i;
  }

  lemma EntryInSector(t: FatType, c: nat, i: nat)
    requires t != Fat12 && i < Span(t)
    ensures (Offset(t, c) + i) / SS == Offset(t, c) / SS
  {
    var k := Offset(t, c);
    IsMultiple(k, Span(t), c);
    AlignedRoom(k, Span(t));
    DivUnique(k + i, SS, k / SS, k % SS + i);
  }
}
