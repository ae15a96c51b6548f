/**
 * Names of the stored image files.
 *
 * An uploaded picture for request field `imageK` of product `id` is stored under the
 * name "Prod <id> imageK.<ext>", where <id> is the decimal product id and <ext> the
 * extension guessed from the file's contents. This module defines that name and
 * proves that it can be taken apart again, so that two different (product, slot,
 * extension) triples never share a file name.
 */
module ImageNames {
  import opened Options

  /** The three file fields of a product request, which are also the image-row columns. */
  datatype Slot = Image1 | Image2 | Image3 {

    /** The request field name and column name of the slot. */
    function Field(): (f: string)
      ensures |f| == 6
    {
      match this
      case Image1 => "image1"
      case Image2 => "image2"
      case Image3 => "image3"
    }

    /** Position of the slot in the order the fields are processed. */
    function Index(): (k: nat)
      ensures k < |AllSlots| && AllSlots[k] == this
    {
      match this
      case Image1 => 0
      case Image2 => 1
      case Image3 => 2
    }
  }

  /** The file fields in processing order. */
  const AllSlots: seq<Slot> := [Image1, Image2, Image3]

  /** The slot whose field name is `f`, if any. */
  function SlotNamed(f: string): (r: Option<Slot>)
    ensures r.Some? ==> r.value.Field() == f
    ensures forall s: Slot :: s.Field() == f ==> r == Some(s)
  {
    if f == "image1" then Some(Image1)
    else if f == "image2" then Some(Image2)
    else if f == "image3" then Some(Image3)
    else None
  }

  predicate IsDigit(c: char) {
    '0' <= c <= '9'
  }

  predicate AllDigits(s: string) {
    forall i :: 0 <= i < |s| ==> IsDigit(s[i])
  }

  function DigitChar(d: nat): (c: char)
    requires d < 10
    ensures IsDigit(c) && c as int - '0' as int == d
  {
    ('0' as int + d) as char
  }

  function DigitValue(c: char): (d: nat)
    requires IsDigit(c)
    ensures d < 10
  {
    c as int - '0' as int
  }

  /** Decimal rendering of a product id, as string interpolation of an integer gives it. */
  function NatToString(n: nat): (s: string)
    ensures 0 < |s| && AllDigits(s)
    ensures n > 0 ==> s[0] != '0'
    ensures |s| > 1 ==> s[0] != '0'
    decreases n
  {
    if n < 10 then [DigitChar(n)] else NatToString(n / 10) + [DigitChar(n % 10)]
  }

  /** The number a string of decimal digits denotes. */
  function ParseDigits(s: string): nat
    requires AllDigits(s)
    decreases |s|
  {
    if s == [] then 0 else ParseDigits(s[..|s| - 1]) * 10 + DigitValue(s[|s| - 1])
  }

  /** Reading back the decimal rendering gives the id it was made from. */
  lemma {:induction false} ParseNatToString(n: nat)
    ensures ParseDigits(NatToString(n)) == n
  {
    var s := NatToString(n);
    if n >= 10 {
      var prefix := NatToString(n / 10);
      assert s == prefix + [DigitChar(n % 10)];
      assert s[..|s| - 1] == prefix;
      ParseNatToString(n / 10);
    }
  }

  /** Length of the run of digits at the start of `s`. */
  function DigitRun(s: string): (k: nat)
    ensures k <= |s|
    ensures forall i :: 0 <= i < k ==> IsDigit(s[i])
    ensures k < |s| ==> !IsDigit(s[k])
  {
    if s == [] || !IsDigit(s[0]) then 0 else 1 + DigitRun(s[1..])
  }

  lemma {:induction false} DigitRunOfDigits(digits: string, tail: string)
    requires AllDigits(digits)
    requires tail != [] && !IsDigit(tail[0])
    ensures DigitRun(digits + tail) == |digits|
  {
    if digits != [] {
      assert (digits + tail)[1..] == digits[1..] + tail;
      DigitRunOfDigits(digits[1..], tail);
    }
  }

  /** File name recorded for the picture sent in field `slot` of product `productId`. */
  function ImageFileName(productId: nat, slot: Slot, ext: string): (name: string)
    ensures |name| == 5 + |NatToString(productId)| + 8 + |ext|
    ensures name[..5] == "Prod " && name[|name| - |ext|..] == ext
  {
    "Prod " + NatToString(productId) + " " + slot.Field() + "." + ext
  }

  /** The parts an image file name is built from. */
  datatype ImageName = ImageName(productId: nat, slot: Slot, ext: string)

  /** Splits a stored image file name into product id, slot and extension. */
  function ParseImageFileName(name: string): Option<ImageName> {
    if |name| < 5 || name[..5] != "Prod " then None else ParseNameTail(name[5..])
  }

  /** Splits "<digits> <field>.<ext>", the part of a file name after "Prod ". */
  function ParseNameTail(rest: string): Option<ImageName> {
    var k := DigitRun(rest);
    if k == 0 || |rest| < k + 8 || rest[k] != ' ' || rest[k + 7] != '.' then None
    else
      match SlotNamed(rest[k + 1..k + 7])
      case None => None
      case Some(slot) => Some(ImageName(ParseDigits(rest[..k]), slot, rest[k + 8..]))
  }

  /** Where the parts of "<digits> <field>.<ext>" sit. */
  lemma SplitNameTail(digits: string, field: string, ext: string)
    requires |field| == 6
    ensures var rest := digits + " " + field + "." + ext;
      var k := |digits|;
      && |rest| == k + 8 + |ext|
      && rest[k] == ' ' && rest[k + 1..k + 7] == field && rest[k + 7] == '.'
      && rest[..k] == digits && rest[k + 8..] == ext
      && rest == digits + (" " + field + "." + ext)
  {
  }

  /** Every image file name can be taken apart into the id, slot and extension it was made from. */
  lemma ImageFileNameRoundTrip(productId: nat, slot: Slot, ext: string)
    ensures ParseImageFileName(ImageFileName(productId, slot, ext)) == Some(ImageName(productId, slot, ext))
  {
    var digits := NatToString(productId);
    var field := slot.Field();
    var rest := digits + " " + field + "." + ext;
    var name := ImageFileName(productId, slot, ext);
    assert name == "Prod " + rest;
    assert name[..5] == "Prod " && name[5..] == rest;
    SplitNameTail(digits, field, ext);
    DigitRunOfDigits(digits, " " + field + "." + ext);
    ParseNatToString(productId);
    assert ParseNameTail(rest) == Some(ImageName(productId, slot, ext));
  }

  /** Distinct (product, slot, extension) triples never share a stored file name. */
  lemma ImageFileNameInjective(p1: nat, s1: Slot, e1: string, p2: nat, s2: Slot, e2: string)
    requires ImageFileName(p1, s1, e1) == ImageFileName(p2, s2, e2)
    ensures p1 == p2 && s1 == s2 && e1 == e2
  {
    ImageFileNameRoundTrip(p1, s1, e1);
    ImageFileNameRoundTrip(p2, s2, e2);
  }
}
