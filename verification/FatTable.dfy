// File allocation tables as bytes: the packed entries of FAT12, FAT16 and FAT32, the way the
// FAT drivers read and update them, and the plain layout they must agree with.
module FatTable {
  import opened Bits

  datatype FatType = Fat12 | Fat16 | Fat32

  /** A little-endian uint16_t and uint32_t stored in a table. */
  function Get16(t: seq<Byte>, o: nat): nat
    requires o + 2 <= |t|
  {
    var low: nat, high: nat := t[o], t[o + 1];
    low + 256 * high
  }

  function Put16(t: seq<Byte>, o: nat, v: nat): seq<Byte>
    requires o + 2 <= |t| && v < 0x1_0000
  {
    t[o := v % 256][o + 1 := v / 256]
  }

  function Get32(t: seq<Byte>, o: nat): Word
    requires o + 4 <= |t|
  {
    Get16(t, o) + 0x1_0000 * Get16(t, o + 2)
  }

  function Put32(t: seq<Byte>, o: nat, v: Word): seq<Byte>
    requires o + 4 <= |t|
  {
    Put16(Put16(t, o, v % 0x1_0000), o + 2, v / 0x1_0000)
  }

  /** Byte offset at which the entry of a cluster is accessed, and the bytes accessed. */
  function Offset(ty: FatType, c: nat): nat {
    match ty
    case Fat12 => c + c / 2
    case Fat16 => c * 2
    case Fat32 => c * 4
  }

  function Width(ty: FatType): nat { if ty.Fat32? then 4 else 2 }

  predicate InTable(ty: FatType, t: seq<Byte>, c: nat) {
    Offset(ty, c) + Width(ty) <= |t|
  }

  lemma {:induction false} InTableBelow(ty: FatType, t: seq<Byte>, c: nat, d: nat)
    requires InTable(ty, t, c) && d <= c
    ensures InTable(ty, t, d)
  {
    assert d / 2 <= c / 2;
  }

  // ---- what the drivers compute ------------------------------------------------------------------

  function Decode12(val: nat, c: nat): nat {
    if And(c, 1) != 0 then val / 16 else And(val, 0x0FFF)
  }

  /** The end-of-chain range of 12-bit and 16-bit entries is widened to 32 bits. */
  function Widen(ty: FatType, val: nat): nat {
    if ty.Fat12? && val >= 0x0FF8 then Or(val, 0xFFFF_F000)
    else if ty.Fat16? && val >= 0xFFF8 then Or(val, 0xFFFF_0000)
    else val
  }

  function Read(ty: FatType, t: seq<Byte>, c: nat): nat
    requires InTable(ty, t, c)
  {
    var o := Offset(ty, c);
    match ty
    case Fat12 => Widen(ty, Decode12(Get16(t, o), c))
    case Fat16 => Widen(ty, Get16(t, o))
    case Fat32 => Get32(t, o)
  }

  function Encode12(val: nat, c: nat, next: Word): nat {
    var cluster := And(next, 0x0FFF);
    if And(c, 1) != 0 then Or(And(cluster * 16, 0xFFF0), And(val, 0x000F)) else Or(cluster, And(val, 0xF000))
  }

  /** update_fat on the bytes of the table. */
  function Update(ty: FatType, t: seq<Byte>, c: nat, next: Word): seq<Byte>
    requires InTable(ty, t, c)
  {
    var o := Offset(ty, c);
    match ty
    case Fat12 => EncodeFits(Get16(t, o), c, next); Put16(t, o, Encode12(Get16(t, o), c, next))
    case Fat16 => AndLow16(next); Put16(t, o, And(next, 0xFFFF))
    case Fat32 => Put32(t, o, next)
  }

  // ---- masks as arithmetic ------------------------------------------------------------------------

  lemma OddValue(c: nat)
    ensures And(c, 1) == c % 2
  {
    Powers();
    hide And, Pow2;
    LowPart(c, c / 2, c % 2, 1, 2);
  }

  lemma AndLow12(x: nat)
    ensures And(x, 0x0FFF) == x % 4096
  {
    Powers();
    hide And, Pow2;
    LowPart(x, x / 4096, x % 4096, 12, 4096);
  }

  lemma AndLow16(x: nat)
    ensures And(x, 0xFFFF) == x % 0x1_0000
  {
    Powers();
    hide And, Pow2;
    LowPart(x, x / 0x1_0000, x % 0x1_0000, 16, 0x1_0000);
  }

  lemma Decode12Value(val: nat, c: nat)
    ensures Decode12(val, c) == if c % 2 == 1 then val / 16 else val % 4096
  {
    OddValue(c);
    AndLow12(val);
    hide And;
  }

  lemma WidenValue(ty: FatType, val: nat)
    requires ty.Fat12? ==> val < 4096
    requires ty.Fat16? ==> val < 0x1_0000
    ensures ty.Fat12? && val >= 0x0FF8 ==> Widen(ty, val) == val + 0xFFFF_F000
    ensures ty.Fat16? && val >= 0xFFF8 ==> Widen(ty, val) == val + 0xFFFF_0000
  {
    Powers();
    hide Or, Pow2;
    if ty.Fat12? {
      OrParts(val, 0xFFFF_F000, 0, val, 0xF_FFFF, 0, 12, 4096);
      OrNone(val);
      OrNone(0xF_FFFF);
    } else if ty.Fat16? {
      OrParts(val, 0xFFFF_0000, 0, val, 0xFFFF, 0, 16, 0x1_0000);
      OrNone(val);
      OrNone(0xFFFF);
    }
  }

  lemma EncodeOdd(val: nat, x: nat)
    requires x < 4096
    ensures Or(And(x * 16, 0xFFF0), And(val, 0x000F)) == 16 * x + val % 16
  {
    Powers();
    hide And, Or, Pow2;
    AndParts(x * 16, 0xFFF0, x, 0, 0xFFF, 0, 4, 16);
    AndFull(x, 12, 0xFFF);
    AndNone(0);
    LowPart(val, val / 16, val % 16, 4, 16);
    OrParts(16 * x, val % 16, x, 0, 0, val % 16, 4, 16);
    OrNone(x);
    OrNone(val % 16);
  }

  lemma EncodeEven(val: nat, x: nat)
    requires x < 4096 && val < 0x1_0000
    ensures Or(x, And(val, 0xF000)) == x + 4096 * (val / 4096)
  {
    Powers();
    hide And, Or, Pow2;
    AndParts(val, 0xF000, val / 4096, val % 4096, 0xF, 0, 12, 4096);
    AndFull(val / 4096, 4, 0xF);
    AndNone(val % 4096);
    OrParts(x, 4096 * (val / 4096), 0, x, val / 4096, 0, 12, 4096);
    OrNone(x);
    OrNone(val / 4096);
  }

  lemma EncodeFits(val: nat, c: nat, next: Word)
    requires val < 0x1_0000
    ensures Encode12(val, c, next) < 0x1_0000
    ensures Encode12(val, c, next) ==
      if c % 2 == 1 then 16 * (next % 4096) + val % 16 else next % 4096 + 4096 * (val / 4096)
  {
    OddValue(c);
    AndLow12(next);
    EncodeOdd(val, next % 4096);
    EncodeEven(val, next % 4096);
    hide And, Or;
  }

  // ---- the layout: entry c is the number of w hexadecimal digits at digit w * c ---------------------

  function Digit(t: seq<Byte>, k: nat): nat
    requires k / 2 < |t|
  {
    if k % 2 == 0 then t[k / 2] % 16 else t[k / 2] / 16
  }

  /** The w digits from digit k on, least significant first. */
  function Number(t: seq<Byte>, k: nat, w: nat): nat
    requires k + w <= 2 * |t|
    decreases w
  {
    if w == 0 then 0 else Digit(t, k) + 16 * Number(t, k + 1, w - 1)
  }

  function Digits(ty: FatType): nat {
    match ty
    case Fat12 => 3
    case Fat16 => 4
    case Fat32 => 8
  }

  /** The raw entry of a cluster, as the format lays it out. */
  function Entry(ty: FatType, t: seq<Byte>, c: nat): nat
    requires InTable(ty, t, c)
  {
    Number(t, Digits(ty) * c, Digits(ty))
  }

  /** One more than the largest raw entry. */
  function Modulus(ty: FatType): nat {
    match ty
    case Fat12 => 4096
    case Fat16 => 0x1_0000
    case Fat32 => 0x1_0000_0000
  }

  lemma DigitsOfByte(t: seq<Byte>, i: nat)
    requires i < |t|
    ensures Digit(t, 2 * i) == t[i] % 16 && Digit(t, 2 * i + 1) == t[i] / 16
  {
  }

  /** The parts of a 16-bit value made of two bytes, and the bytes of a 16-bit value. */
  lemma TwoBytes(low: nat, high: nat)
    requires low < 256 && high < 256
    ensures var v := low + 256 * high;
      && v < 0x1_0000 && v % 16 == low % 16 && v / 4096 == high / 16
      && v / 16 == low / 16 + 16 * (high % 16) + 256 * (high / 16)
      && v % 4096 == low % 16 + 16 * (low / 16) + 256 * (high % 16)
  {
  }

  lemma BytesOf(v: nat)
    requires v < 0x1_0000
    ensures v % 256 % 16 == v % 16 && v % 256 / 16 == v / 16 % 16 && v / 256 / 16 == v / 4096
    ensures v % 256 + 256 * (v / 256) == v
  {
  }

  lemma Number3(t: seq<Byte>, k: nat)
    requires k + 3 <= 2 * |t|
    ensures Number(t, k, 3) == Digit(t, k) + 16 * Digit(t, k + 1) + 256 * Digit(t, k + 2)
  {
    assert Number(t, k + 1, 2) == Digit(t, k + 1) + 16 * Number(t, k + 2, 1);
    assert Number(t, k + 2, 1) == Digit(t, k + 2);
  }

  lemma NumberByte(t: seq<Byte>, o: nat, w: nat)
    requires w >= 2 && 2 * o + w <= 2 * |t|
    ensures Number(t, 2 * o, w) == t[o] + 256 * Number(t, 2 * (o + 1), w - 2)
  {
    assert Number(t, 2 * o + 1, w - 1) == Digit(t, 2 * o + 1) + 16 * Number(t, 2 * o + 2, w - 2);
  }

  lemma Number4(t: seq<Byte>, o: nat)
    requires o + 2 <= |t|
    ensures Number(t, 2 * o, 4) == Get16(t, o)
  {
    NumberByte(t, o, 4);
    NumberByte(t, o + 1, 2);
  }

  lemma Number8(t: seq<Byte>, o: nat)
    requires o + 4 <= |t|
    ensures Number(t, 2 * o, 8) == Get32(t, o)
  {
    NumberByte(t, o, 8);
    NumberByte(t, o + 1, 6);
    Number4(t, o + 2);
  }

  /** Where the digits of a 12-bit entry lie in the two bytes accessed. */
  lemma Offset12(c: nat)
    ensures 2 * Offset(Fat12, c) == 3 * c - c % 2
  {
  }

  /** The two ways three digits lie in two bytes. */
  lemma ThreeDigits(t: seq<Byte>, o: nat)
    requires o + 2 <= |t|
    ensures Number(t, 2 * o + 1, 3) == Get16(t, o) / 16
    ensures Number(t, 2 * o, 3) == Get16(t, o) % 4096
    ensures Get16(t, o) < 0x1_0000
  {
    var low: nat, high: nat := t[o], t[o + 1];
    assert Get16(t, o) == low + 256 * high;
    hide *;
    DigitsOfByte(t, o);
    DigitsOfByte(t, o + 1);
    TwoBytes(low, high);
    Number3(t, 2 * o + 1);
    Number3(t, 2 * o);
  }

  lemma Entry12(t: seq<Byte>, c: nat)
    requires InTable(Fat12, t, c)
    ensures Entry(Fat12, t, c) ==
      if c % 2 == 1 then Get16(t, Offset(Fat12, c)) / 16 else Get16(t, Offset(Fat12, c)) % 4096
    ensures Get16(t, Offset(Fat12, c)) < 0x1_0000
  {
    Offset12(c);
    ThreeDigits(t, Offset(Fat12, c));
    hide Number, Get16, Offset;
  }

  lemma EntryValue(ty: FatType, t: seq<Byte>, c: nat)
    requires InTable(ty, t, c)
    ensures Entry(ty, t, c) < Modulus(ty)
    ensures var o := Offset(ty, c);
      Entry(ty, t, c) == match ty
        case Fat12 => (if c % 2 == 1 then Get16(t, o) / 16 else Get16(t, o) % 4096)
        case Fat16 => Get16(t, o)
        case Fat32 => Get32(t, o)
  {
    hide Number, Digit;
    match ty
    case Fat12 =>
      Entry12(t, c);
      hide Entry, Get16, Offset;
    case Fat16 => Number4(t, 2 * c);
    case Fat32 => Number8(t, 4 * c);
  }

  /** What the drivers read is the raw entry of the format, its end-of-chain range widened. */
  lemma ReadsEntry(ty: FatType, t: seq<Byte>, c: nat)
    requires InTable(ty, t, c)
    ensures Read(ty, t, c) == Widened(ty, Entry(ty, t, c))
    ensures Read(ty, t, c) < 0x1_0000_0000
  {
    EntryValue(ty, t, c);
    Decode12Value(Get16(t, Offset(ty, c)), c);
    WidenValue(ty, Entry(ty, t, c));
    hide Entry, Decode12;
  }

  function Widened(ty: FatType, entry: nat): nat {
    if ty.Fat12? && entry >= 0x0FF8 then entry + 0xFFFF_F000
    else if ty.Fat16? && entry >= 0xFFF8 then entry + 0xFFFF_0000
    else entry
  }

  // ---- update ---------------------------------------------------------------------------------

  lemma Put16Digits(t: seq<Byte>, o: nat, v: nat, k: nat)
    requires o + 2 <= |t| && v < 0x1_0000 && k / 2 < |t|
    ensures |Put16(t, o, v)| == |t| && Get16(Put16(t, o, v), o) == v
    ensures Digit(Put16(t, o, v), k) ==
      if k == 2 * o then v % 16 else if k == 2 * o + 1 then v / 16 % 16
      else if k == 2 * o + 2 then v / 256 % 16 else if k == 2 * o + 3 then v / 4096 else Digit(t, k)
  {
    var u := Put16(t, o, v);
    BytesOf(v);
    DigitsOfByte(u, o);
    DigitsOfByte(u, o + 1);
    if k / 2 != o && k / 2 != o + 1 {
      assert u[k / 2] == t[k / 2];
    } else {
      hide Digit;
    }
  }

  lemma Get16Digits(t: seq<Byte>, o: nat)
    requires o + 2 <= |t|
    ensures Get16(t, o) < 0x1_0000
    ensures Digit(t, 2 * o) == Get16(t, o) % 16 && Digit(t, 2 * o + 3) == Get16(t, o) / 4096
  {
    DigitsOfByte(t, o);
    DigitsOfByte(t, o + 1);
    TwoBytes(t[o], t[o + 1]);
    hide Digit;
  }

  lemma UpdateOutside12(t: seq<Byte>, c: nat, next: Word, k: nat)
    requires InTable(Fat12, t, c) && k / 2 < |t|
    requires k < 3 * c || 3 * c + 3 <= k
    ensures Digit(Update(Fat12, t, c, next), k) == Digit(t, k)
  {
    var o := Offset(Fat12, c);
    var val := Get16(t, o);
    Offset12(c);
    Get16Digits(t, o);
    EncodeFits(val, c, next);
    Put16Digits(t, o, Encode12(val, c, next), k);
    assert Update(Fat12, t, c, next) == Put16(t, o, Encode12(val, c, next));
    hide Update, Offset, Put16, Get16, Digit, Encode12;
    EncodeKeeps(val, c, next);
  }

  /** The digit an entry shares a byte with is not touched. */
  lemma EncodeKeeps(val: nat, c: nat, next: Word)
    requires val < 0x1_0000
    ensures c % 2 == 1 ==> Encode12(val, c, next) % 16 == val % 16
    ensures c % 2 == 0 ==> Encode12(val, c, next) / 4096 == val / 4096
  {
    EncodeFits(val, c, next);
    hide Encode12;
  }

  lemma Put32Digits(t: seq<Byte>, o: nat, v: Word, k: nat)
    requires o + 4 <= |t| && k / 2 < |t| && (k < 2 * o || 2 * o + 8 <= k)
    ensures Digit(Put32(t, o, v), k) == Digit(t, k)
  {
  }

  lemma Put32Get(t: seq<Byte>, o: nat, v: Word)
    requires o + 4 <= |t|
    ensures |Put32(t, o, v)| == |t| && Get32(Put32(t, o, v), o) == v
  {
    var u := Put16(t, o, v % 0x1_0000);
    Put16Digits(t, o, v % 0x1_0000, 0);
    Put16Digits(u, o + 2, v / 0x1_0000, 0);
    assert Get16(Put16(u, o + 2, v / 0x1_0000), o) == Get16(u, o);
    hide Put16, Get16;
  }

  /** Digits outside the entry of c keep their value. */
  lemma UpdateOutside(ty: FatType, t: seq<Byte>, c: nat, next: Word, k: nat)
    requires InTable(ty, t, c) && k / 2 < |t|
    requires k < Digits(ty) * c || Digits(ty) * c + Digits(ty) <= k
    ensures |Update(ty, t, c, next)| == |t|
    ensures Digit(Update(ty, t, c, next), k) == Digit(t, k)
  {
    match ty
    case Fat12 =>
      UpdateOutside12(t, c, next, k);
      UpdateLength(ty, t, c, next);
      hide Update, Digit;
    case Fat16 =>
      AndLow16(next);
      Put16Digits(t, 2 * c, And(next, 0xFFFF), k);
      hide And, Put16, Digit;
    case Fat32 =>
      Put32Digits(t, 4 * c, next, k);
      hide Put32, Digit;
  }

  lemma {:induction false} NumberSame(t: seq<Byte>, u: seq<Byte>, k: nat, w: nat)
    requires |t| == |u| && k + w <= 2 * |t|
    requires forall j | k <= j < k + w :: Digit(t, j) == Digit(u, j)
    ensures Number(t, k, w) == Number(u, k, w)
    decreases w
  {
    if w == 0 {
    } else {
      NumberSame(t, u, k + 1, w - 1);
    }
  }

  /** update_fat by type, on the 16-bit halves it stores. */
  lemma UpdateCases(ty: FatType, t: seq<Byte>, c: nat, next: Word)
    requires InTable(ty, t, c)
    ensures var o := Offset(ty, c);
      match ty
      case Fat12 =>
        && o + 2 <= |t| && Encode12(Get16(t, o), c, next) < 0x1_0000
        && Update(ty, t, c, next) == Put16(t, o, Encode12(Get16(t, o), c, next))
      case Fat16 =>
        o + 2 <= |t| && And(next, 0xFFFF) < 0x1_0000 && Update(ty, t, c, next) == Put16(t, o, And(next, 0xFFFF))
      case Fat32 =>
        && o + 4 <= |t| && next / 0x1_0000 < 0x1_0000
        && Update(ty, t, c, next) == Put16(Put16(t, o, next % 0x1_0000), o + 2, next / 0x1_0000)
  {
    EncodeFits(Get16(t, Offset(ty, c)), c, next);
    AndLow16(next);
    hide Encode12, And;
  }

  lemma UpdateLength(ty: FatType, t: seq<Byte>, c: nat, next: Word)
    requires InTable(ty, t, c)
    ensures |Update(ty, t, c, next)| == |t|
  {
  }

  lemma UpdateEntry12(t: seq<Byte>, c: nat, next: Word)
    requires InTable(Fat12, t, c)
    ensures |Update(Fat12, t, c, next)| == |t|
    ensures Entry(Fat12, Update(Fat12, t, c, next), c) == next % 4096
  {
    var o := Offset(Fat12, c);
    var val := Get16(t, o);
    Get16Digits(t, o);
    EncodeFits(val, c, next);
    Put16Digits(t, o, Encode12(val, c, next), 0);
    assert Update(Fat12, t, c, next) == Put16(t, o, Encode12(val, c, next));
    EntryValue(Fat12, Update(Fat12, t, c, next), c);
    hide *;
    EncodedPart(c % 2 == 1, val, next % 4096);
  }

  lemma EncodedPart(odd: bool, val: nat, x: nat)
    requires val < 0x1_0000 && x < 4096
    ensures (16 * x + val % 16) / 16 == x
    ensures (x + 4096 * (val / 4096)) % 4096 == x
  {
  }

  lemma UpdateEntry(ty: FatType, t: seq<Byte>, c: nat, next: Word)
    requires InTable(ty, t, c)
    ensures |Update(ty, t, c, next)| == |t|
    ensures Entry(ty, Update(ty, t, c, next), c) == next % Modulus(ty)
  {
    UpdateLength(ty, t, c, next);
    match ty
    case Fat12 =>
      UpdateEntry12(t, c, next);
      hide Update, Entry;
    case Fat16 =>
      EntryValue(ty, Update(ty, t, c, next), c);
      AndLow16(next);
      Put16Digits(t, 2 * c, And(next, 0xFFFF), 0);
      hide Entry, And, Put16, Get16;
    case Fat32 =>
      EntryValue(ty, Update(ty, t, c, next), c);
      Put32Get(t, 4 * c, next);
      hide Entry, Put32, Get32;
  }

  lemma EntriesApart(w: nat, c: nat, d: nat)
    requires c != d
    ensures w * d + w <= w * c || w * c + w <= w * d
  {
    if d < c { assert w * (d + 1) <= w * c; } else { assert w * (c + 1) <= w * d; }
  }

  lemma EntryElsewhere(ty: FatType, t: seq<Byte>, c: nat, next: Word, d: nat)
    requires InTable(ty, t, c) && InTable(ty, t, d) && d != c
    ensures |Update(ty, t, c, next)| == |t|
    ensures Entry(ty, Update(ty, t, c, next), d) == Entry(ty, t, d)
  {
    var u, w := Update(ty, t, c, next), Digits(ty);
    UpdateLength(ty, t, c, next);
    var from, at := w * d, w * c;
    EntriesApart(w, c, d);
    assert from + w <= 2 * |t| by { DigitsInside(ty, t, d); }
    forall j | from <= j < from + w ensures Digit(t, j) == Digit(u, j) {
      UpdateOutside(ty, t, c, next, j);
    }
    hide Update, Digit, InTable;
    NumberSame(t, u, from, w);
  }

  lemma DigitsInside(ty: FatType, t: seq<Byte>, d: nat)
    requires InTable(ty, t, d)
    ensures Digits(ty) * d + Digits(ty) <= 2 * |t|
  {
    EntryValue(ty, t, d);
  }

  /**
   * The codec law, for a table of any length: reading back an updated entry gives what was
   * stored, truncated to the entry and widened again, and every other entry reads as before -
   * the neighbour sharing a byte included.
   */
  lemma UpdateReads(ty: FatType, t: seq<Byte>, c: nat, next: Word, d: nat)
    requires InTable(ty, t, c) && InTable(ty, t, d)
    ensures |Update(ty, t, c, next)| == |t|
    ensures Read(ty, Update(ty, t, c, next), d) ==
      if d == c then Widened(ty, next % Modulus(ty)) else Read(ty, t, d)
  {
    var u := Update(ty, t, c, next);
    UpdateEntry(ty, t, c, next);
    ReadsEntry(ty, t, d);
    ReadsEntry(ty, u, d);
    hide Read, Update;
    if d != c { EntryElsewhere(ty, t, c, next, d); }
  }
}
