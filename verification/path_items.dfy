/** `PathItems`: the four kinds of item a diagram holds (paths, circles, pause hints and
    speed hints), the defaults each kind starts with, and the 12-character identifier
    every item receives. */
module PathItems {
  import opened Text
  import opened Core

  datatype ItemType = PathType | CircleType | PauseHintType | SpeedHintType

  /** The kind-specific part of an item. A path caches the bounding box of its data in
      `bounds` (absent until the editor computes it). */
  datatype Shape =
    | PathShape(d: string, stroke: string, strokeWidth: real, opacity: real,
                lineType: string, lineCap: string, lineJoin: string, bounds: Option<Rect>)
    | CircleShape(cx: real, cy: real, r: real, fill: string, opacity: real)
    | PauseShape(milliseconds: int)
    | SpeedShape(multiplier: real)

  /** An item of the diagram. Items are objects in the editor; here an item is known by
      its `id`, which callers keep unique. */
  datatype Item = Item(id: string, selected: bool, highlight: bool, shape: Shape)

  /** `ItemType`, which each constructor fixes once. */
  function TypeOf(it: Item): (t: ItemType)
    ensures t == PathType <==> it.shape.PathShape?
    ensures t == CircleType <==> it.shape.CircleShape?
    ensures t == PauseHintType <==> it.shape.PauseShape?
    ensures t == SpeedHintType <==> it.shape.SpeedShape?
  {
    match it.shape
    case PathShape(_, _, _, _, _, _, _, _) => PathType
    case CircleShape(_, _, _, _, _) => CircleType
    case PauseShape(_) => PauseHintType
    case SpeedShape(_) => SpeedHintType
  }

  predicate IsPath(it: Item) { it.shape.PathShape? }

  // ---------------------------------------------------------------------------
  // Defaults
  // ---------------------------------------------------------------------------

  const DefaultStroke := "#000"
  const DefaultStrokeWidth := 2.0
  const DefaultOpacity := 1.0
  const DefaultPause := 500
  const DefaultSpeed := 1.0

  /** `new SvgPathItem()`: empty data, black stroke of width 2, fully opaque, solid with
      round caps and joins, no cached bounds. */
  function NewPath(id: string): (it: Item)
    ensures TypeOf(it) == PathType && it.id == id && !it.selected && !it.highlight
    ensures it.shape == PathShape("", DefaultStroke, DefaultStrokeWidth, DefaultOpacity, "solid", "round", "round", None)
  {
    Item(id, false, false, PathShape("", DefaultStroke, DefaultStrokeWidth, DefaultOpacity, "solid", "round", "round", None))
  }

  /** `new SvgCircleItem()`: at the origin with radius 0, black fill, fully opaque. */
  function NewCircle(id: string): (it: Item)
    ensures TypeOf(it) == CircleType && it.id == id && !it.selected && !it.highlight
    ensures it.shape == CircleShape(0.0, 0.0, 0.0, DefaultStroke, DefaultOpacity)
  {
    Item(id, false, false, CircleShape(0.0, 0.0, 0.0, DefaultStroke, DefaultOpacity))
  }

  /** `new PauseHintItem()`: a pause of 500 ms. */
  function NewPause(id: string): (it: Item)
    ensures TypeOf(it) == PauseHintType && it.id == id && it.shape.milliseconds == DefaultPause
  {
    Item(id, false, false, PauseShape(DefaultPause))
  }

  /** `new SpeedHintItem()`: the normal speed. */
  function NewSpeed(id: string): (it: Item)
    ensures TypeOf(it) == SpeedHintType && it.id == id && it.shape.multiplier == DefaultSpeed
  {
    Item(id, false, false, SpeedShape(DefaultSpeed))
  }

  // ---------------------------------------------------------------------------
  // Identifiers: the first six bytes of a GUID in lower-case hex
  // ---------------------------------------------------------------------------

  newtype Byte = x: int | 0 <= x < 256

  const HexDigits := "0123456789ABCDEF"

  /** The upper-case hex digit of a nibble; lower-cased, it reads back as the nibble. */
  function Digit(n: nat): (c: char)
    requires n < 16
    ensures IsUpperHex(c) && IsLowerHex(ToLower(c)) && DigitValue(ToLower(c)) == n
  {
    HexDigits[n]
  }

  /** One byte as two upper-case hex digits, high nibble first. */
  function HexPair(b: Byte): (s: string)
    ensures |s| == 2 && IsUpperHex(s[0]) && IsUpperHex(s[1])
  {
    [Digit((b / 16) as nat), Digit((b % 16) as nat)]
  }

  /** `BitConverter.ToString`: the bytes as hex pairs separated by dashes. */
  function DashedHex(bs: seq<Byte>): string {
    if |bs| == 0 then ""
    else if |bs| == 1 then HexPair(bs[0])
    else HexPair(bs[0]) + "-" + DashedHex(bs[1..])
  }

  /** The bytes as hex pairs with nothing between them. */
  function PlainHex(bs: seq<Byte>): (s: string)
    ensures |s| == 2 * |bs|
  {
    if |bs| == 0 then "" else HexPair(bs[0]) + PlainHex(bs[1..])
  }

  /** `Replace(c, "")` for a one-character pattern. */
  function Without(s: string, c: char): (r: string)
    ensures |r| <= |s|
    ensures forall i :: 0 <= i < |r| ==> r[i] != c
  {
    if |s| == 0 then "" else (if s[0] == c then "" else [s[0]]) + Without(s[1..], c)
  }

  predicate IsLowerHex(c: char) { '0' <= c <= '9' || 'a' <= c <= 'f' }

  /** `GenerateId` on the bytes of a fresh GUID, which are a parameter here: dashes
      removed, the first twelve digits kept, lower-cased. */
  function GenerateId(guid: seq<Byte>): (id: string)
    requires |guid| == 16
    ensures |id| == 12
    ensures forall i :: 0 <= i < |id| ==> IsLowerHex(id[i])
  {
    DashesRemoved(guid);
    PlainHexPrefix(guid, 6);
    LowerHexDigits(guid[..6]);
    LowerString(Without(DashedHex(guid), '-')[..12])
  }

  lemma {:induction false} WithoutAppend(a: string, b: string, c: char)
    ensures Without(a + b, c) == Without(a, c) + Without(b, c)
  {
    if |a| > 0 {
      assert (a + b)[1..] == a[1..] + b;
      WithoutAppend(a[1..], b, c);
    } else {
      assert a + b == b;
    }
  }

  lemma WithoutNone(s: string, c: char)
    requires forall i :: 0 <= i < |s| ==> s[i] != c
    ensures Without(s, c) == s
  {
    if |s| > 0 {
      WithoutNone(s[1..], c);
    }
  }

  /** Removing the dashes from the dashed form leaves the plain hex digits. */
  lemma {:induction false} DashesRemoved(bs: seq<Byte>)
    ensures Without(DashedHex(bs), '-') == PlainHex(bs)
  {
    if |bs| == 1 {
      WithoutNone(HexPair(bs[0]), '-');
      assert PlainHex(bs) == HexPair(bs[0]) + PlainHex(bs[1..]);
      assert HexPair(bs[0]) + PlainHex(bs[1..]) == HexPair(bs[0]);
    } else if |bs| > 1 {
      DashesRemoved(bs[1..]);
      WithoutAppend(HexPair(bs[0]) + "-", DashedHex(bs[1..]), '-');
      WithoutAppend(HexPair(bs[0]), "-", '-');
      WithoutNone(HexPair(bs[0]), '-');
      assert Without("-", '-') == "";
    }
  }

  lemma {:induction false} PlainHexPrefix(bs: seq<Byte>, k: nat)
    requires k <= |bs|
    ensures PlainHex(bs)[..2 * k] == PlainHex(bs[..k])
  {
    if k > 0 {
      PlainHexPrefix(bs[1..], k - 1);
      assert bs[..k][1..] == bs[1..][..k - 1];
      assert PlainHex(bs)[..2 * k] == HexPair(bs[0]) + PlainHex(bs[1..])[..2 * (k - 1)];
    }
  }

  lemma LowerHexDigits(bs: seq<Byte>)
    ensures forall i :: 0 <= i < |PlainHex(bs)| ==> IsLowerHex(ToLower(PlainHex(bs)[i]))
  {
    forall i | 0 <= i < |PlainHex(bs)| ensures IsLowerHex(ToLower(PlainHex(bs)[i])) {
      HexCharsAreHex(bs, i);
    }
  }

  predicate IsUpperHex(c: char) { '0' <= c <= '9' || 'A' <= c <= 'F' }

  lemma {:induction false} HexCharsAreHex(bs: seq<Byte>, i: nat)
    requires i < |PlainHex(bs)|
    ensures IsUpperHex(PlainHex(bs)[i])
  {
    if i >= 2 {
      HexCharsAreHex(bs[1..], i - 2);
    }
  }

  // ---------------------------------------------------------------------------
  // Reading an identifier back
  // ---------------------------------------------------------------------------

  /** The value of a lower-case hex digit. */
  function DigitValue(c: char): (v: nat)
    requires IsLowerHex(c)
    ensures v < 16
  {
    if c <= '9' then (c as int - '0' as int) else (c as int - 'a' as int) + 10
  }

  /** Hex digits, two at a time, back to bytes. */
  function DecodeHex(s: string): (bs: seq<Byte>)
    requires |s| % 2 == 0 && forall i :: 0 <= i < |s| ==> IsLowerHex(s[i])
    ensures |bs| == |s| / 2
  {
    if |s| == 0 then []
    else
      assert IsLowerHex(s[0]) && IsLowerHex(s[1]);
      [(DigitValue(s[0]) * 16 + DigitValue(s[1])) as Byte] + DecodeHex(s[2..])
  }

  lemma {:induction false} DecodeLowerHex(bs: seq<Byte>)
    ensures forall i :: 0 <= i < |PlainHex(bs)| ==> IsLowerHex(LowerString(PlainHex(bs))[i])
    ensures DecodeHex(LowerString(PlainHex(bs))) == bs
  {
    LowerHexDigits(bs);
    if |bs| > 0 {
      DecodeLowerHex(bs[1..]);
      DecodeLowerHexStep(bs);
    }
  }

  /** The first pair of digits decodes to the first byte, the rest to the rest. */
  lemma DecodeLowerHexStep(bs: seq<Byte>)
    requires |bs| > 0
    requires forall i :: 0 <= i < |PlainHex(bs[1..])| ==> IsLowerHex(LowerString(PlainHex(bs[1..]))[i])
    requires DecodeHex(LowerString(PlainHex(bs[1..]))) == bs[1..]
    ensures forall i :: 0 <= i < |PlainHex(bs)| ==> IsLowerHex(LowerString(PlainHex(bs))[i])
    ensures DecodeHex(LowerString(PlainHex(bs))) == bs
  {
    var rest := LowerString(PlainHex(bs[1..]));
    LowerPlainHexCons(bs);
    DecodePairCons(bs[0], rest);
    assert DecodeHex(LowerPair(bs[0]) + rest) == [bs[0]] + bs[1..];
  }

  /** One byte's two digits, lower-cased. */
  function LowerPair(b: Byte): (s: string)
    ensures |s| == 2 && IsLowerHex(s[0]) && IsLowerHex(s[1])
    ensures (DigitValue(s[0]) * 16 + DigitValue(s[1])) as Byte == b
  {
    PairDecodes(b);
    LowerString(HexPair(b))
  }

  lemma LowerPlainHexCons(bs: seq<Byte>)
    requires |bs| > 0
    ensures LowerString(PlainHex(bs)) == LowerPair(bs[0]) + LowerString(PlainHex(bs[1..]))
  {
    assert PlainHex(bs) == HexPair(bs[0]) + PlainHex(bs[1..]);
    LowerStringAppend(HexPair(bs[0]), PlainHex(bs[1..]));
  }

  /** Lower-casing works character by character, so it distributes over joining. */
  lemma LowerStringAppend(a: string, b: string)
    ensures LowerString(a + b) == LowerString(a) + LowerString(b)
  {
    assert forall i :: 0 <= i < |b| ==> (a + b)[|a| + i] == b[i];
  }

  /** A byte's lower-cased digits in front of more digits decode to the byte in front. */
  lemma DecodePairCons(b: Byte, rest: string)
    requires |rest| % 2 == 0 && forall i :: 0 <= i < |rest| ==> IsLowerHex(rest[i])
    ensures forall i :: 0 <= i < |LowerPair(b) + rest| ==> IsLowerHex((LowerPair(b) + rest)[i])
    ensures DecodeHex(LowerPair(b) + rest) == [b] + DecodeHex(rest)
  {
    DecodeCons(LowerPair(b), rest);
  }

  /** Decoding a pair of digits in front of more digits. */
  lemma DecodeCons(x: string, rest: string)
    requires |x| == 2 && IsLowerHex(x[0]) && IsLowerHex(x[1])
    requires |rest| % 2 == 0 && forall i :: 0 <= i < |rest| ==> IsLowerHex(rest[i])
    ensures forall i :: 0 <= i < |x + rest| ==> IsLowerHex((x + rest)[i])
    ensures DecodeHex(x + rest) == [(DigitValue(x[0]) * 16 + DigitValue(x[1])) as Byte] + DecodeHex(rest)
  {
    assert (x + rest)[2..] == rest;
  }

  /** The two lower-cased digits of a byte give the byte back. */
  lemma PairDecodes(b: Byte)
    ensures (DigitValue(ToLower(HexPair(b)[0])) * 16 + DigitValue(ToLower(HexPair(b)[1]))) as Byte == b
  {
  }

  /** The identifier spells out the first six bytes of the GUID: decoding it gives
      them back. */
  lemma IdEncodesGuid(guid: seq<Byte>)
    requires |guid| == 16
    ensures DecodeHex(GenerateId(guid)) == guid[..6]
  {
    DashesRemoved(guid);
    PlainHexPrefix(guid, 6);
    DecodeLowerHex(guid[..6]);
  }

  /** Two GUIDs agreeing in their first six bytes, and only those, give the same id. */
  lemma SameIdSamePrefix(g1: seq<Byte>, g2: seq<Byte>)
    requires |g1| == 16 && |g2| == 16
    ensures GenerateId(g1) == GenerateId(g2) <==> g1[..6] == g2[..6]
  {
    IdEncodesGuid(g1);
    IdEncodesGuid(g2);
    DashesRemoved(g1);
    PlainHexPrefix(g1, 6);
    DashesRemoved(g2);
    PlainHexPrefix(g2, 6);
  }
}
