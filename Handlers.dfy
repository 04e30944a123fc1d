/** The display handlers: each turns a raw cell value and a format pattern into
    what the table shows. A handler returns a RawValue, not a string, because
    its fallback `general` passes a non-null value through unchanged. */
module Handlers {
  import opened Text
  import opened Values
  import opened Decoders

  // ---------------------------------------------------------------------------
  // toFixFloatVal and the float handlers

  /** The number of decimals a pattern asks for: the characters after the
      first separator, or none when the pattern has no separator. */
  function DecimalPlaces(format: string, separator: char): (d: nat)
    ensures format != [] ==> d < |format|
    ensures separator !in format ==> d == 0
    ensures separator in format ==>
              format[|format| - d - 1] == separator && separator !in format[..|format| - d - 1]
  {
    var len := IndexOf(format, separator);
    if len == -1 then 0 else |format| - len - 1
  }

  /** Renders a number with as many decimals as the pattern asks for; anything
      that is not a number is "NaN". */
  function ToFixFloatVal(val: RawValue, format: string, separator: char, rt: Runtime): (r: string)
    ensures !val.Num? ==> r == "NaN"
    ensures val.Num? && separator !in format ==> r == rt.toFixed(val.x, 0)
    ensures val.Num? && separator in format ==>
              exists i :: 0 <= i < |format| && format[i] == separator && separator !in format[..i]
                       && r == rt.toFixed(val.x, |format| - i - 1)
  {
    if !val.Num? then "NaN"
    else
      var d := DecimalPlaces(format, separator);
      assert separator in format ==>
        format[|format| - d - 1] == separator && separator !in format[..|format| - d - 1];
      rt.toFixed(val.x, d)
  }

  /** The float handler (and the distance handler, which is the same code):
      null or an empty pattern defer to `general`; otherwise the value is
      rendered with the pattern's decimal count. */
  function FloatDataFunc(val: RawValue, format: string, rt: Runtime): (r: RawValue)
    ensures !r.Null?
    ensures val.Null? ==> r == Str("N/A")
    ensures !val.Null? && format == [] ==> r == val
    ensures !val.Null? && format != [] ==> r == Str(ToFixFloatVal(val, format, '.', rt))
  {
    if val.Null? || format == [] then General(val)
    else Str(ToFixFloatVal(val, format, '.', rt))
  }

  /** With a pattern such as "0.000" a number gets exactly as many decimals as
      the pattern has characters after its first dot; a non-number is "NaN". */
  lemma FloatDecimals(x: real, format: string, k: nat, rt: Runtime)
    requires k < |format| && format[k] == '.' && '.' !in format[..k]
    ensures FloatDataFunc(Num(x), format, rt) == Str(rt.toFixed(x, |format| - k - 1))
  {
    assert format[k] in format;
  }

  // ---------------------------------------------------------------------------
  // Zero padding

  /** The integer handler (and the unsigned one, which is the same code): a
      non-empty pattern left-pads the digit string with '0' to the pattern's
      length; an empty pattern defers to `general`. */
  function IntegerDataFunc(val: RawValue, format: string): (r: RawValue)
    requires format != [] ==> val.Str?
    ensures format == [] ==> r == General(val)
    ensures format != [] ==> r.Str? && |r.s| == Max(|val.s|, |format|)
    ensures format != [] ==> r.Str? && r.s[|r.s| - |val.s|..] == val.s
    ensures format != [] ==> r.Str? && forall i :: 0 <= i < |r.s| - |val.s| ==> r.s[i] == '0'
    ensures format != [] && |val.s| >= |format| ==> r == val
  {
    if format != [] then Str(PadStart(val.s, |format|, '0')) else General(val)
  }

  /** Padding is idempotent: formatting an already formatted value changes
      nothing. */
  lemma IntegerDataIdempotent(val: RawValue, format: string)
    requires format != [] ==> val.Str?
    ensures IntegerDataFunc(IntegerDataFunc(val, format), format) == IntegerDataFunc(val, format)
  {
    if format != [] {
      PadStartIdempotent(val.s, |format|, '0');
    }
  }

  // ---------------------------------------------------------------------------
  // IMEI grouping

  /** The lengths of the '-'-separated groups of an IMEI pattern. */
  function GroupLengths(format: string): (lens: seq<nat>)
    ensures |lens| == |Split(format, '-')| >= 1
    ensures forall i :: 0 <= i < |lens| ==> lens[i] == |Split(format, '-')[i]|
  {
    var groups := Split(format, '-');
    seq(|groups|, i requires 0 <= i < |groups| => |groups[i]|)
  }

  /** The IMEI pieces: piece i starts after the earlier groups' lengths and is
      as long as group i, clipped at the end of the value. */
  function ImeiPieces(val: string, lens: seq<nat>): (pieces: seq<string>)
    ensures |pieces| == |lens|
  {
    seq(|lens|, i requires 0 <= i < |lens| => Substr(val, Sum(lens[..i]), lens[i]))
  }

  /** Piece i is the slice of the value that starts after the earlier groups'
      lengths and is as long as group i, clipped at the end of the value. */
  lemma ImeiPiece(val: string, lens: seq<nat>, i: nat)
    requires i < |lens|
    ensures ImeiPieces(val, lens)[i] == val[Min(Sum(lens[..i]), |val|)..Min(Sum(lens[..i]) + lens[i], |val|)]
  {
  }

  /** The IMEI text: the pieces joined by '-'. */
  function ImeiText(val: string, format: string): string
  {
    Join(ImeiPieces(val, GroupLengths(format)), "-")
  }

  /** Each piece followed by the separator. */
  function Terminated(parts: seq<string>, sep: string): (r: string)
    ensures |r| >= |parts| * |sep|
  {
    if parts == [] then "" else Terminated(parts[..|parts| - 1], sep) + parts[|parts| - 1] + sep
  }

  /** Terminating every piece is joining them and terminating the last. */
  lemma {:induction false} TerminatedJoin(parts: seq<string>, sep: string)
    requires |parts| >= 1
    ensures Terminated(parts, sep) == Join(parts, sep) + sep
  {
    var init := parts[..|parts| - 1];
    if |parts| > 1 {
      TerminatedJoin(init, sep);
      JoinSnoc(init, parts[|parts| - 1], sep);
      assert init + [parts[|parts| - 1]] == parts;
    }
  }

  /** The IMEI handler: a non-empty pattern cuts the digit string into groups
      as long as the pattern's '-'-separated groups, writing each followed by
      '-' and dropping the last '-'; an empty pattern defers to `general`. */
  method ImeiDataFunc(val: RawValue, format: string) returns (r: RawValue)
    requires format != [] ==> val.Str?
    ensures format == [] ==> r == General(val)
    ensures format != [] ==> r == Str(ImeiText(val.s, format))
  {
    if format == [] {
      return General(val);
    }
    var groups := Split(format, '-');
    ghost var lens := GroupLengths(format);
    ghost var pieces := ImeiPieces(val.s, lens);
    var offset := 0;
    var res := "";
    var i := 0;
    while i < |groups|
      invariant 0 <= i <= |groups|
      invariant offset == Sum(lens[..i])
      invariant res == Terminated(pieces[..i], "-")
    {
      ImeiStep(val.s, lens, i);
      res := res + Substr(val.s, offset, |groups[i]|) + "-";
      offset := offset + |groups[i]|;
      i := i + 1;
    }
    assert pieces[..i] == pieces;
    TerminatedJoin(pieces, "-");
    assert res[..|res| - 1] == Join(pieces, "-");
    r := Str(res[..|res| - 1]);
  }

  /** One turn of the IMEI loop: the next piece starts at the running offset,
      and the offset grows by the group's length. */
  lemma ImeiStep(val: string, lens: seq<nat>, i: nat)
    requires i < |lens|
    ensures Sum(lens[..i + 1]) == Sum(lens[..i]) + lens[i]
    ensures Terminated(ImeiPieces(val, lens)[..i + 1], "-")
         == Terminated(ImeiPieces(val, lens)[..i], "-") + Substr(val, Sum(lens[..i]), lens[i]) + "-"
  {
    var pieces := ImeiPieces(val, lens);
    SumLast(lens[..i + 1]);
    assert lens[..i + 1][..i] == lens[..i];
    assert pieces[..i + 1][..i] == pieces[..i];
  }

  /** The pieces, read in order, spell the prefix of the value as long as the
      groups together (or all of it when it is shorter). */
  lemma {:induction false} ImeiPiecesPrefix(val: string, lens: seq<nat>)
    ensures Concat(ImeiPieces(val, lens)) == val[..Min(Sum(lens), |val|)]
    decreases |lens|
  {
    if lens == [] {
      assert ImeiPieces(val, lens) == [];
    } else {
      var n := |lens| - 1;
      var init := lens[..n];
      var o := Sum(init);
      ConcatPieces(val, lens);
      ImeiPiecesPrefix(val, init);
      ImeiPiece(val, lens, n);
      PrefixStep(val, o, lens[n]);
      SumLast(lens);
    }
  }

  /** The pieces read in order are the pieces of all but the last group
      followed by the last piece. */
  lemma ConcatPieces(val: string, lens: seq<nat>)
    requires lens != []
    ensures Concat(ImeiPieces(val, lens))
         == Concat(ImeiPieces(val, lens[..|lens| - 1])) + ImeiPieces(val, lens)[|lens| - 1]
  {
    ImeiPiecesInit(val, lens);
  }

  /** The pieces of all but the last group are the pieces of the shorter
      pattern. */
  lemma ImeiPiecesInit(val: string, lens: seq<nat>)
    requires lens != []
    ensures ImeiPieces(val, lens)[..|lens| - 1] == ImeiPieces(val, lens[..|lens| - 1])
  {
    var n := |lens| - 1;
    var init := lens[..n];
    forall i | 0 <= i < n
      ensures ImeiPieces(val, lens)[i] == ImeiPieces(val, init)[i]
    {
      assert lens[..i] == init[..i];
    }
  }

  /** A clipped prefix followed by the clipped slice after it is a longer
      clipped prefix. */
  lemma PrefixStep(val: string, o: nat, l: nat)
    ensures val[..Min(o, |val|)] + val[Min(o, |val|)..Min(o + l, |val|)] == val[..Min(o + l, |val|)]
  {
  }

  /** The last length added to the sum of the others. */
  lemma SumLast(lens: seq<nat>)
    requires lens != []
    ensures Sum(lens) == Sum(lens[..|lens| - 1]) + lens[|lens| - 1]
  {
  }

  /** Only the lengths of the pattern's groups matter, not their characters. */
  lemma ImeiLengthsOnly(val: string, f1: string, f2: string)
    requires GroupLengths(f1) == GroupLengths(f2)
    ensures ImeiText(val, f1) == ImeiText(val, f2)
  {
  }

  /** A pattern of dash-separated "x" groups cuts a 15-digit IMEI into groups
      of 2, 4, 6 and 1 digits. */
  lemma ImeiExample()
    ensures ImeiText("123456789012345", "xx-xxxx-xxxxxx-x") == "12-3456-789012-3"
  {
    ExampleGroups();
    ExamplePieces();
    ExampleJoin();
  }

  lemma ExampleGroups()
    ensures GroupLengths("xx-xxxx-xxxxxx-x") == [2, 4, 6, 1]
  {
    assert "xx-xxxx-xxxxxx-x" == "xx" + "-" + "xxxx" + "-" + "xxxxxx" + "-" + "x";
    FourGroups("xx", "xxxx", "xxxxxx", "x");
  }

  lemma ExamplePieces()
    ensures ImeiPieces("123456789012345", [2, 4, 6, 1]) == ["12", "3456", "789012", "3"]
  {
    assert "123456789012345" == "12" + "3456" + "789012" + "3" + "45";
    FourPieces("12", "3456", "789012", "3", "45");
  }

  lemma ExampleJoin()
    ensures Join(["12", "3456", "789012", "3"], "-") == "12-3456-789012-3"
  {
    JoinFour("12", "3456", "789012", "3", "-");
    assert "12" + "-" + "3456" + "-" + "789012" + "-" + "3" == "12-3456-789012-3";
  }

  /** The group lengths are the lengths of the pattern's groups, not numbers
      written in them: "2-4-6-1" is four groups of one character each. */
  lemma ImeiDigitPattern()
    ensures ImeiText("123456789012345", "2-4-6-1") == "1-2-3-4"
  {
    DigitPatternGroups();
    DigitPatternPieces();
    DigitPatternJoin();
  }

  lemma DigitPatternGroups()
    ensures GroupLengths("2-4-6-1") == [1, 1, 1, 1]
  {
    assert "2-4-6-1" == "2" + "-" + "4" + "-" + "6" + "-" + "1";
    FourGroups("2", "4", "6", "1");
  }

  lemma DigitPatternPieces()
    ensures ImeiPieces("123456789012345", [1, 1, 1, 1]) == ["1", "2", "3", "4"]
  {
    assert "123456789012345" == "1" + "2" + "3" + "4" + "56789012345";
    FourPieces("1", "2", "3", "4", "56789012345");
  }

  lemma DigitPatternJoin()
    ensures Join(["1", "2", "3", "4"], "-") == "1-2-3-4"
  {
    JoinFour("1", "2", "3", "4", "-");
    assert "1" + "-" + "2" + "-" + "3" + "-" + "4" == "1-2-3-4";
  }

  /** A pattern of four groups has their four lengths. */
  lemma FourGroups(p: string, q: string, r: string, s: string)
    requires '-' !in p && '-' !in q && '-' !in r && '-' !in s
    ensures GroupLengths(p + "-" + q + "-" + r + "-" + s) == [|p|, |q|, |r|, |s|]
  {
    SplitFour(p, q, r, s, '-');
  }

  /** Four groups whose lengths fit in the value cut it into its first four
      pieces of those lengths. */
  lemma FourPieces(p: string, q: string, r: string, s: string, rest: string)
    ensures ImeiPieces(p + q + r + s + rest, [|p|, |q|, |r|, |s|]) == [p, q, r, s]
  {
    var val := p + q + r + s + rest;
    var lens := [|p|, |q|, |r|, |s|];
    SumPrefixes(|p|, |q|, |r|, |s|);
    PieceAt(val, lens, 0, [], p, q + r + s + rest);
    PieceAt(val, lens, 1, p, q, r + s + rest);
    PieceAt(val, lens, 2, p + q, r, s + rest);
    PieceAt(val, lens, 3, p + q + r, s, rest);
  }

  /** The piece of a group is the part of the value after the earlier groups
      when that part is as long as the group. */
  lemma PieceAt(val: string, lens: seq<nat>, i: nat, before: string, x: string, after: string)
    requires i < |lens| && val == before + x + after
    requires Sum(lens[..i]) == |before| && lens[i] == |x|
    ensures ImeiPieces(val, lens)[i] == x
  {
    ImeiPiece(val, lens, i);
    assert val[|before|..|before| + |x|] == x;
  }

  /** The running offsets of four groups. */
  lemma SumPrefixes(a: nat, b: nat, c: nat, d: nat)
    ensures Sum([a, b, c, d][..0]) == 0 && Sum([a, b, c, d][..1]) == a
    ensures Sum([a, b, c, d][..2]) == a + b && Sum([a, b, c, d][..3]) == a + b + c
  {
    var lens := [a, b, c, d];
    assert lens[..1] == [a] && lens[..2] == [a, b] && lens[..3] == [a, b, c];
    assert [a, b][..1] == [a];
    assert [a, b, c][..2] == [a, b];
  }

  /** A piece of a value holds only characters of the value. */
  lemma PieceCharacters(val: string, lens: seq<nat>, c: char)
    requires c !in val
    ensures forall i :: 0 <= i < |lens| ==> c !in ImeiPieces(val, lens)[i]
  {
    var pieces := ImeiPieces(val, lens);
    forall i | 0 <= i < |lens|
      ensures c !in pieces[i]
    {
      var lo := Min(Sum(lens[..i]), |val|);
      ImeiPiece(val, lens, i);
      forall j | 0 <= j < |pieces[i]|
        ensures pieces[i][j] != c
      {
        assert pieces[i][j] == val[lo + j];
      }
    }
  }

  /** For a value without '-' the IMEI text has one '-'-separated piece per
      group of the pattern, and piece i is the slice of the value after the
      earlier groups' lengths. */
  lemma ImeiSplit(val: string, format: string)
    requires '-' !in val
    ensures Split(ImeiText(val, format), '-') == ImeiPieces(val, GroupLengths(format))
  {
    var pieces := ImeiPieces(val, GroupLengths(format));
    PieceCharacters(val, GroupLengths(format), '-');
    SplitJoin(pieces, '-');
  }

  // ---------------------------------------------------------------------------
  // Lists

  /** How the coordinate handler renders one element: through `general` under
      an empty pattern, else with the pattern's decimal count. */
  function CoordinateText(item: RawValue, format: string, rt: Runtime): string
  {
    if format == [] then JsString(General(item), rt) else ToFixFloatVal(item, format, '.', rt)
  }

  /** The coordinate handler: a value without elements (an empty list, an
      empty string, a number or a boolean, whose length is undefined) is
      "N/A"; a list is rendered element by element, in reverse order, joined
      with ",". */
  function CoordinateFunc(val: RawValue, format: string, rt: Runtime): (r: RawValue)
    requires !val.Null? && (val.Str? ==> val.s == [])
    ensures r.Str?
    ensures !val.List? || val.items == [] ==> r == Str("N/A")
  {
    if !val.List? || val.items == [] then Str("N/A")
    else
      var xs := val.items;
      Str(Join(Reverse(seq(|xs|, i requires 0 <= i < |xs| => CoordinateText(xs[i], format, rt))), ","))
  }

  /** Splitting the coordinate text at "," gives the elements' renderings in
      reverse order, when no rendering holds a ",". */
  lemma CoordinateReversed(xs: seq<RawValue>, format: string, rt: Runtime)
    requires xs != []
    requires forall i :: 0 <= i < |xs| ==> ',' !in CoordinateText(xs[i], format, rt)
    ensures CoordinateFunc(List(xs), format, rt).Str?
    ensures |Split(CoordinateFunc(List(xs), format, rt).s, ',')| == |xs|
    ensures forall i :: 0 <= i < |xs| ==>
              Split(CoordinateFunc(List(xs), format, rt).s, ',')[i] == CoordinateText(xs[|xs| - 1 - i], format, rt)
  {
    var texts := seq(|xs|, i requires 0 <= i < |xs| => CoordinateText(xs[i], format, rt));
    var rev := Reverse(texts);
    forall i | 0 <= i < |rev|
      ensures ',' !in rev[i]
    {
      assert rev[i] == texts[|xs| - 1 - i];
    }
    SplitJoin(rev, ',');
  }

  /** The integer-list handler: null is "N/A"; a list is its elements joined
      with "," in their own order. */
  function IntegerListDataFunc(val: RawValue, rt: Runtime): (r: RawValue)
    requires val.Null? || val.List?
    ensures val.Null? ==> r == Str("N/A")
    ensures val.List? ==> r == Str(JsString(val, rt))
  {
    if val.Null? then General(val) else Str(JsString(val, rt))
  }

  /** Splitting the integer-list text at "," gives the elements' texts in
      their own order (a null element as the empty string), when no element's
      text holds a ",". */
  lemma IntegerListInOrder(xs: seq<RawValue>, rt: Runtime)
    requires xs != []
    requires forall i :: 0 <= i < |xs| ==> ',' !in JsString(xs[i], rt)
    ensures IntegerListDataFunc(List(xs), rt).Str?
    ensures |Split(IntegerListDataFunc(List(xs), rt).s, ',')| == |xs|
    ensures forall i :: 0 <= i < |xs| ==>
              Split(IntegerListDataFunc(List(xs), rt).s, ',')[i] == (if xs[i].Null? then "" else JsString(xs[i], rt))
  {
    var texts := seq(|xs|, i requires 0 <= i < |xs| => if xs[i].Null? then "" else JsString(xs[i], rt));
    assert JsString(List(xs), rt) == Join(texts, ",");
    forall i | 0 <= i < |texts|
      ensures ',' !in texts[i]
    {
    }
    SplitJoin(texts, ',');
  }

  // ---------------------------------------------------------------------------
  // Enumerations and booleans

  /** The enumeration handler: the value's text looked up in the enumeration
      definition gives the entry's name; a missing definition or entry defers
      to `general`. The definition maps each key to its entry's name. */
  function EnumDataFunc(val: RawValue, enumDef: Option<map<string, string>>, rt: Runtime): (r: RawValue)
    ensures !r.Null?
    ensures enumDef.Some? && JsString(val, rt) in enumDef.value ==> r == Str(enumDef.value[JsString(val, rt)])
    ensures enumDef.None? || JsString(val, rt) !in enumDef.value ==> r == General(val)
  {
    if enumDef.Some? && JsString(val, rt) in enumDef.value then Str(enumDef.value[JsString(val, rt)])
    else General(val)
  }

  /** The boolean handler: null is "N/A", anything else "True" or "False" by
      its truthiness. */
  function BoolDataFunc(val: RawValue): (r: RawValue)
    ensures r.Str? && r.s in {"N/A", "True", "False"}
    ensures val.Null? ==> r.s == "N/A"
    ensures !val.Null? ==> (r.s == "True" <==> Truthy(val))
    ensures val.Bool? ==> (r.s == "True" <==> val.b)
  {
    if val.Null? then General(val) else Str(if Truthy(val) then "True" else "False")
  }

  // ---------------------------------------------------------------------------
  // The handlers over host operations: only their null policy is modelled.

  /** The percent handler: null is "N/A", anything else the host's rendering of
      the value times 100 followed by "%". */
  function PercentDataFunc(val: RawValue, format: string, rt: Runtime): (r: RawValue)
    ensures val.Null? ==> r == Str("N/A")
    ensures !val.Null? ==> r.Str? && |r.s| >= 1 && r.s[|r.s| - 1] == '%'
  {
    if val.Null? then General(val) else Str(rt.percentText(val, format) + "%")
  }

  /** The date-time handler: null is "N/A", anything else the host's locale
      rendering of the millisecond timestamp. */
  function TimeDateDataFunc(val: RawValue, rt: Runtime): (r: RawValue)
    ensures val.Null? ==> r == Str("N/A")
    ensures !val.Null? ==> r.Str?
  {
    if val.Null? then General(val) else Str(rt.localeDateTime(val))
  }

  /** The duration handler: null is "N/A", anything else the host's rendering
      of the millisecond duration. */
  function DurationDataFunc(val: RawValue, rt: Runtime): (r: RawValue)
    ensures val.Null? ==> r == Str("N/A")
    ensures !val.Null? ==> r.Str?
  {
    if val.Null? then General(val) else Str(rt.durationText(val))
  }

  // ---------------------------------------------------------------------------
  // The identifier handlers

  /** A value the identifier handlers accept: null, or the decimal text of an
      unsigned 64-bit identifier. */
  predicate IsIdentifier(val: RawValue)
  {
    val.Null? || (val.Str? && IsUint64Text(val.s))
  }

  /** The NE handler: null is "N/A", an identifier the canonical decimal text
      of its NE number; reading that text back and dividing by 10^9 gives the
      PLMN, the remainder the ECI (NeTextUnique: no other text does both). */
  function NEDataFunc(val: RawValue): (r: RawValue)
    requires IsIdentifier(val)
    ensures val.Null? ==> r == Str("N/A")
    ensures val.Str? ==> r.Str? && CanonicalDecimal(r.s)
    ensures val.Str? ==> ParseRadix(r.s, 10) / ECI_DIVISOR == (ParseRadix(val.s, 10) / 0x1000_0000) % 0x10_0000
    ensures val.Str? ==> ParseRadix(r.s, 10) % ECI_DIVISOR == ParseRadix(val.s, 10) % 0x1000_0000
  {
    if val.Null? then General(val)
    else
      var v := ParseRadix(val.s, 10);
      NeTextRoundTrip(v);
      Str(ToRadix(NeNumber(v), 10))
  }

  /** The eNodeB-id handler: null is "N/A", an identifier "eNodeB.sector" in
      canonical decimal, the eNodeB below 2^20 and the sector below 256, the
      two rebuilding its low 28 bits (EnbSectorTextUnique: no other text
      does all that). */
  function LteEnbIdDataFunc(val: RawValue): (r: RawValue)
    requires IsIdentifier(val)
    ensures val.Null? ==> r == Str("N/A")
    ensures val.Str? ==> r.Str? && |Split(r.s, '.')| == 2
    ensures val.Str? ==> r.Str? && CanonicalDecimal(Split(r.s, '.')[0]) && CanonicalDecimal(Split(r.s, '.')[1])
    ensures val.Str? ==> r.Str? && ParseRadix(Split(r.s, '.')[0], 10) < 0x10_0000
                                 && ParseRadix(Split(r.s, '.')[1], 10) < 0x100
    ensures val.Str? ==> r.Str? && ParseRadix(Split(r.s, '.')[0], 10) * 0x100
                                 + ParseRadix(Split(r.s, '.')[1], 10) == ParseRadix(val.s, 10) % 0x1000_0000
  {
    if val.Null? then General(val)
    else
      var v := ParseRadix(val.s, 10);
      EnbSectorTextRoundTrip(v);
      Str(EnbSectorText(v))
  }

  /** The GUMMEI handler: null is "N/A", an identifier its GUMMEI text; for an
      identifier of at least 10 hex digits that text splits at the dots into
      the four bit fields. */
  function GummeiDataFunc(val: RawValue): (r: RawValue)
    requires IsIdentifier(val)
    ensures r.Str?
    ensures val.Null? ==> r == Str("N/A")
    ensures val.Str? ==> |Split(r.s, '.')| == 4 && |Split(r.s, '.')[3]| >= 3
    ensures val.Str? && ParseRadix(val.s, 10) >= 0x10_0000_0000 ==>
              r.Str? && Split(r.s, '.') == GummeiFields(ParseRadix(val.s, 10))
  {
    if val.Null? then General(val)
    else
      var v := ParseRadix(val.s, 10);
      GummeiTextParts(v);
      if v >= 0x10_0000_0000 then
        GummeiLayout(v);
        Str(GummeiText(v))
      else Str(GummeiText(v))
  }
}
