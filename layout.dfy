/**
 * The text layout shared by the four encoders: a header, the element literals
 * separated by ", " with a line break ",\n  " after every `wrap` elements, no
 * separator after the last element, and the closing "\n};".
 *
 * ParseListing reads such a text back into the element values and the places
 * where a line ends; ListingRoundTrip shows it recovers exactly what was laid
 * out, so the layout loses nothing and every element has the stated width.
 */
module Layout {

  import opened Wrappers
  import opened Hex

  const Comma: string := ", "
  const LineBreak: string := ",\n  "
  const Footer: string := "\n};"

  /** One element as read back from a listing: its value and whether its line ends after it. */
  datatype Item = Item(value: nat, breakAfter: bool)

  /** The text an encoder appends after the k-th (counting from 1) of n elements. */
  function Separator(k: nat, n: nat, wrap: nat): (r: string)
    requires wrap > 0
  {
    if k < n && k % wrap == 0 then LineBreak
    else if k < n then Comma
    else ""
  }

  /** Elements k.. of `lits`, each followed by its separator. */
  function ElementsFrom(lits: seq<string>, k: nat, wrap: nat): (r: string)
    requires wrap > 0 && k <= |lits|
    decreases |lits| - k
  {
    if k == |lits| then ""
    else lits[k] + Separator(k + 1, |lits|, wrap) + ElementsFrom(lits, k + 1, wrap)
  }

  /** The whole declaration text. */
  function Listing(header: string, lits: seq<string>, wrap: nat): (r: string)
    requires wrap > 0
  {
    header + ElementsFrom(lits, 0, wrap) + Footer
  }

  /** The literal `0x` followed by exactly `digits` hex digits of v. */
  function HexLiteral(v: nat, digits: nat): (r: string)
  {
    "0x" + FixedHex(v, digits)
  }

  /** What a reader of the listing should find: the values, a line ending after every `wrap`-th but the last. */
  function Items(vals: seq<nat>, wrap: nat): (r: seq<Item>)
    requires wrap > 0
    ensures |r| == |vals|
  {
    seq(|vals|, j requires 0 <= j < |vals| => Item(vals[j], j + 1 < |vals| && (j + 1) % wrap == 0))
  }

  /** Reads a non-empty run of `0x`-literals of `digits` digits joined by ", " or ",\n  ". */
  function ParseElements(s: string, digits: nat): (r: Option<seq<Item>>)
    decreases |s|
  {
    if |s| < 2 + digits || s[..2] != "0x" || !AllHexDigits(s[2..2 + digits]) then None
    else
      var v := HexValue(s[2..2 + digits]);
      var rest := s[2 + digits..];
      if rest == [] then Some([Item(v, false)])
      else if |rest| >= 4 && rest[..4] == LineBreak then
        match ParseElements(rest[4..], digits)
        case Some(more) => Some([Item(v, true)] + more)
        case None => None
      else if |rest| >= 2 && rest[..2] == Comma then
        match ParseElements(rest[2..], digits)
        case Some(more) => Some([Item(v, false)] + more)
        case None => None
      else None
  }

  /** Reads a whole listing with the given header back into its elements. */
  function ParseListing(header: string, digits: nat, text: string): (r: Option<seq<Item>>)
  {
    if |text| < |header| + |Footer| || text[..|header|] != header || text[|text| - |Footer|..] != Footer then None
    else
      var body := text[|header|..|text| - |Footer|];
      if body == [] then Some([]) else ParseElements(body, digits)
  }

  /**
   * One round of an encoder's loop after the element value is known: append its
   * literal, count it, then append a line break if the line now holds `wrap`
   * elements and more follow, else a comma if more follow.
   *
   * The ghost `lits` and `whole` carry the encoder's loop invariant: the text so
   * far followed by the elements still to come is the whole listing body.
   */
  method AppendElement(code: string, literal: string, byteIndex: nat, bytesOnCurrentLine: nat, bufferLength: nat, wrap: nat,
                       ghost lits: seq<string>, ghost whole: string)
    returns (code': string, byteIndex': nat, bytesOnCurrentLine': nat)
    requires wrap > 0 && byteIndex < bufferLength && bytesOnCurrentLine == byteIndex % wrap
    requires bufferLength == |lits| && literal == lits[byteIndex] && code + ElementsFrom(lits, byteIndex, wrap) == whole
    ensures byteIndex' == byteIndex + 1
    ensures code' == code + literal + Separator(byteIndex', bufferLength, wrap)
    ensures byteIndex' < bufferLength ==> bytesOnCurrentLine' == byteIndex' % wrap
    ensures code' + ElementsFrom(lits, byteIndex', wrap) == whole
  {
    AppendKeepsListing(code, lits, byteIndex, wrap, whole);
    code' := code + literal;
    byteIndex' := byteIndex + 1;
    bytesOnCurrentLine' := bytesOnCurrentLine + 1;
    CountStep(byteIndex, wrap);
    if bytesOnCurrentLine' >= wrap && byteIndex' < bufferLength {
      code' := code' + LineBreak;
      bytesOnCurrentLine' := 0;
    } else if byteIndex' < bufferLength {
      code' := code' + Comma;
    }
  }

  /** An encoder loop's invariant survives appending element k and its separator. */
  lemma AppendKeepsListing(code: string, lits: seq<string>, k: nat, wrap: nat, whole: string)
    requires wrap > 0 && k < |lits| && code + ElementsFrom(lits, k, wrap) == whole
    ensures code + lits[k] + Separator(k + 1, |lits|, wrap) + ElementsFrom(lits, k + 1, wrap) == whole
  {
    var sep := Separator(k + 1, |lits|, wrap);
    var tail := ElementsFrom(lits, k + 1, wrap);
    assert ElementsFrom(lits, k, wrap) == lits[k] + sep + tail;
    assert code + lits[k] + sep + tail == code + (lits[k] + sep + tail);
  }

  /** Once every element is appended, adding the footer completes the listing. */
  lemma ListingComplete(code: string, header: string, lits: seq<string>, wrap: nat)
    requires wrap > 0 && code + ElementsFrom(lits, |lits|, wrap) == header + ElementsFrom(lits, 0, wrap)
    ensures code + Footer == Listing(header, lits, wrap)
  {
    assert code == code + ElementsFrom(lits, |lits|, wrap);
  }

  /** The per-line counter after one more element: it wraps to 0 exactly at multiples of `wrap`. */
  lemma CountStep(k: nat, wrap: nat)
    requires wrap > 0
    ensures (k + 1) % wrap == if k % wrap + 1 == wrap then 0 else k % wrap + 1
  {
    var q := k / wrap;
    assert k == q * wrap + k % wrap;
    if k % wrap + 1 == wrap {
      DivModUnique(k + 1, q + 1, 0, wrap);
    } else {
      DivModUnique(k + 1, q, k % wrap + 1, wrap);
    }
  }

  // ---------------------------------------------------------------------
  // The layout can be read back
  // ---------------------------------------------------------------------

  /** Element literals that are `0x` plus `digits` hex digits of values that fit. */
  ghost predicate LiteralsOf(lits: seq<string>, vals: seq<nat>, digits: nat)
  {
    |lits| == |vals| &&
    forall j :: 0 <= j < |vals| ==> vals[j] < Pow16(digits) && lits[j] == HexLiteral(vals[j], digits)
  }

  /** A literal of `digits` digits heads the text: the parser reads its value and continues after it. */
  lemma ParseHead(s: string, v: nat, digits: nat, rest: string)
    requires v < Pow16(digits) && s == HexLiteral(v, digits) + rest
    ensures |s| >= 2 + digits && s[..2] == "0x" && AllHexDigits(s[2..2 + digits])
    ensures HexValue(s[2..2 + digits]) == v && s[2 + digits..] == rest
  {
    var hex := FixedHex(v, digits);
    FixedHexDigits(v, digits);
    assert s == "0x" + hex + rest;
    assert s[..2] == "0x";
    assert s[2..2 + digits] == hex;
    HexValueOfFixedHex(v, digits);
  }

  /** The parser reads a last literal. */
  lemma ParseLast(v: nat, digits: nat)
    requires v < Pow16(digits)
    ensures ParseElements(HexLiteral(v, digits), digits) == Some([Item(v, false)])
  {
    ParseHead(HexLiteral(v, digits), v, digits, "");
  }

  /** The parser reads a literal and a separator, then goes on with the rest. */
  lemma ParseStep(v: nat, digits: nat, sep: string, tail: string)
    requires v < Pow16(digits) && (sep == Comma || sep == LineBreak)
    requires |tail| >= 2 && tail[..2] == "0x"
    ensures ParseElements(HexLiteral(v, digits) + sep + tail, digits) ==
      match ParseElements(tail, digits)
      case Some(more) => Some([Item(v, sep == LineBreak)] + more)
      case None => None
  {
    var s := HexLiteral(v, digits) + sep + tail;
    assert s == HexLiteral(v, digits) + (sep + tail);
    ParseHead(s, v, digits, sep + tail);
    if sep == LineBreak {
      ParseAfterLineBreak(s, digits, tail);
    } else {
      ParseAfterComma(s, digits, tail);
    }
  }

  lemma ParseAfterLineBreak(s: string, digits: nat, tail: string)
    requires |s| >= 2 + digits && s[..2] == "0x" && AllHexDigits(s[2..2 + digits])
    requires s[2 + digits..] == LineBreak + tail
    ensures ParseElements(s, digits) ==
      match ParseElements(tail, digits)
      case Some(more) => Some([Item(HexValue(s[2..2 + digits]), true)] + more)
      case None => None
  {
    var rest := s[2 + digits..];
    assert |rest| >= 4 && rest[..4] == LineBreak;
    assert rest[4..] == tail;
  }

  lemma ParseAfterComma(s: string, digits: nat, tail: string)
    requires |s| >= 2 + digits && s[..2] == "0x" && AllHexDigits(s[2..2 + digits])
    requires s[2 + digits..] == Comma + tail && |tail| >= 2 && tail[0] == '0'
    ensures ParseElements(s, digits) ==
      match ParseElements(tail, digits)
      case Some(more) => Some([Item(HexValue(s[2..2 + digits]), false)] + more)
      case None => None
  {
    var rest := s[2 + digits..];
    assert rest[2] == '0';
    assert rest[..4] != LineBreak;
    assert |rest| >= 2 && rest[..2] == Comma;
    assert rest[2..] == tail;
  }

  lemma {:induction false} ParseElementsFrom(lits: seq<string>, vals: seq<nat>, digits: nat, wrap: nat, k: nat)
    requires wrap > 0 && LiteralsOf(lits, vals, digits) && k < |vals|
    ensures ParseElements(ElementsFrom(lits, k, wrap), digits) == Some(Items(vals, wrap)[k..])
    decreases |vals| - k
  {
    var n := |vals|;
    var items := Items(vals, wrap);
    var v := vals[k];
    assert v < Pow16(digits) && lits[k] == HexLiteral(v, digits);
    if k + 1 == n {
      assert ElementsFrom(lits, k, wrap) == HexLiteral(v, digits);
      ParseLast(v, digits);
      assert items[k..] == [Item(v, false)];
    } else {
      var sep := Separator(k + 1, n, wrap);
      var tail := ElementsFrom(lits, k + 1, wrap);
      NextStartsWithLiteral(lits, vals, digits, wrap, k + 1);
      assert ElementsFrom(lits, k, wrap) == HexLiteral(v, digits) + sep + tail;
      ParseElementsFrom(lits, vals, digits, wrap, k + 1);
      ParseStep(v, digits, sep, tail);
      SliceCons(items, k);
    }
  }

  lemma NextStartsWithLiteral(lits: seq<string>, vals: seq<nat>, digits: nat, wrap: nat, k: nat)
    requires wrap > 0 && LiteralsOf(lits, vals, digits) && k < |vals|
    ensures |ElementsFrom(lits, k, wrap)| >= 2 && ElementsFrom(lits, k, wrap)[..2] == "0x"
  {
    var rest := Separator(k + 1, |lits|, wrap) + ElementsFrom(lits, k + 1, wrap);
    assert lits[k] == "0x" + FixedHex(vals[k], digits);
    assert ElementsFrom(lits, k, wrap) == lits[k] + rest;
    assert (lits[k] + rest)[..2] == lits[k][..2];
  }

  /**
   * A suffix is its first element followed by the rest. Stated apart so that the
   * sequence fact does not enter ParseElementsFrom's larger context.
   */
  lemma SliceCons<T>(s: seq<T>, k: nat)
    requires k < |s|
    ensures s[k..] == [s[k]] + s[k + 1..]
  {
  }

  /** Reading a listing back yields its values in order, with a line ending after every `wrap`-th. */
  lemma ListingRoundTrip(header: string, lits: seq<string>, vals: seq<nat>, digits: nat, wrap: nat)
    requires wrap > 0 && LiteralsOf(lits, vals, digits)
    ensures ParseListing(header, digits, Listing(header, lits, wrap)) == Some(Items(vals, wrap))
  {
    var body := ElementsFrom(lits, 0, wrap);
    var text := Listing(header, lits, wrap);
    assert text[..|header|] == header;
    assert text[|text| - |Footer|..] == Footer;
    assert text[|header|..|text| - |Footer|] == body;
    if |vals| == 0 {
      assert Items(vals, wrap) == [];
    } else {
      assert body == lits[0] + Separator(1, |lits|, wrap) + ElementsFrom(lits, 1, wrap);
      assert body != [];
      ParseElementsFrom(lits, vals, digits, wrap, 0);
      assert Items(vals, wrap)[0..] == Items(vals, wrap);
    }
  }

  /** Any wrap + 1 consecutive elements contain a line ending: no line holds more than `wrap`. */
  lemma LineHoldsAtMostWrap(vals: seq<nat>, wrap: nat, i: nat, j: nat)
    requires wrap > 0 && i + wrap <= j < |vals|
    ensures exists k :: i <= k < j && Items(vals, wrap)[k].breakAfter
  {
    var k := i + (wrap - 1 - i % wrap);
    assert i == (i / wrap) * wrap + i % wrap;
    DivModUnique(k + 1, i / wrap + 1, 0, wrap);
    assert Items(vals, wrap)[k].breakAfter;
  }

  /** A line ends only after a full `wrap` elements: every line but the last holds exactly `wrap`. */
  lemma LineEndsAfterFullLine(vals: seq<nat>, wrap: nat, k: nat)
    requires wrap > 0 && k < |vals| && Items(vals, wrap)[k].breakAfter
    ensures k + 1 >= wrap && k + 1 < |vals|
    ensures forall m :: k + 1 - wrap <= m < k ==> !Items(vals, wrap)[m].breakAfter
  {
    var q := (k + 1) / wrap;
    assert k + 1 == q * wrap;
    assert q <= 0 ==> q * wrap <= 0;
    assert q * wrap == (q - 1) * wrap + wrap;
    forall m | k + 1 - wrap <= m < k
      ensures !Items(vals, wrap)[m].breakAfter
    {
      var r := m + 1 - (q - 1) * wrap;
      DivModUnique(m + 1, q - 1, r, wrap);
    }
  }

  /** Dafny's division and remainder are determined by x == q * w + r with 0 <= r < w. */
  lemma DivModUnique(x: int, q: int, r: int, w: int)
    requires w > 0 && 0 <= r < w && x == q * w + r
    ensures x / w == q && x % w == r
  {
    var d := q - x / w;
    assert x == (x / w) * w + x % w;
    assert d * w == x % w - r;
    assert d >= 1 ==> d * w >= w;
    assert d <= -1 ==> d * w <= -w;
  }
}
