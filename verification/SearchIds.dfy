/** The identifier encoding of the search page, and the row filter that compares encoded prefixes. */
module SearchIds {
  import opened Basics

  /** A JavaScript string: a sequence of UTF-16 code units. */
  type Code = c: int | 0 <= c < 0x10000
  type Text = seq<Code>

  const UNDERSCORE: Code := 95
  const SPACE: Code := 32
  const QUESTION: Code := 63

  /** Matches /[a-z0-9]/. */
  predicate IsPlain(c: Code) {
    97 <= c <= 122 || 48 <= c <= 57
  }

  function HexDigit(d: int): Code
    requires 0 <= d < 16
  {
    if d < 10 then 48 + d else 87 + d
  }

  /** `toString(16)`. */
  function Hex(n: nat): Text {
    if n < 16 then [HexDigit(n)] else Hex(n / 16) + [HexDigit(n % 16)]
  }

  function EncodeOne(c: Code): Text {
    if IsPlain(c) then [c]
    else if c < 16 then [UNDERSCORE, 48] + Hex(c)
    else [UNDERSCORE] + Hex(c)
  }

  /** Each code replaced by its own text. */
  function FlatMap(s: Text, f: Code -> Text): Text {
    if s == [] then [] else f(s[0]) + FlatMap(s[1..], f)
  }

  function Encode(s: Text): Text {
    FlatMap(s, EncodeOne)
  }

  lemma {:induction false} FlatMapConcat(a: Text, b: Text, f: Code -> Text)
    ensures FlatMap(a + b, f) == FlatMap(a, f) + FlatMap(b, f)
  {
    if a == [] {
      assert a + b == b;
    } else {
      FlatMapConcat(a[1..], b, f);
      FlatMapCons(a[0], a[1..], f);
      FlatMapCons(a[0], a[1..] + b, f);
      assert [a[0]] + a[1..] == a && [a[0]] + (a[1..] + b) == a + b;
      Associative(f(a[0]), FlatMap(a[1..], f), FlatMap(b, f));
    }
  }

  lemma FlatMapCons(c: Code, s: Text, f: Code -> Text)
    ensures FlatMap([c] + s, f) == f(c) + FlatMap(s, f)
  {
    assert ([c] + s)[1..] == s;
  }

  method ConvertToId(search: Text) returns (result: Text)
    ensures result == Encode(search)
  {
    result := [];
    for i := 0 to |search|
      invariant result == Encode(search[..i])
    {
      var c := search[i];
      FlatMapConcat(search[..i], [c], EncodeOne);
      assert search[..i + 1] == search[..i] + [c];
      assert Encode([c]) == EncodeOne(c);
      if IsPlain(c) {
        result := result + [c];
      } else if c < 16 {
        result := result + ([UNDERSCORE, 48] + Hex(c));
      } else {
        result := result + ([UNDERSCORE] + Hex(c));
      }
    }
    assert search[..|search|] == search;
  }

  // ---------- The encoding of one code ----------

  const LETTERS := "abcdefghijklmnopqrstuvwxyz"
  const DIGITS := "0123456789"
  const HEX_DIGITS := "0123456789abcdef"

  /** The code is that of a character of this text. */
  predicate IsOf(c: Code, text: string) {
    exists i :: 0 <= i < |text| && text[i] as int == c
  }

  /** The base-16 value of a list of digits. */
  function Value(ds: seq<int>): int {
    if ds == [] then 0 else 16 * Value(ds[..|ds| - 1]) + ds[|ds| - 1]
  }

  /** The text spells these digits. */
  ghost predicate Spells(text: Text, ds: seq<int>) {
    |text| == |ds| && forall i :: 0 <= i < |ds| ==> 0 <= ds[i] < 16 && text[i] == HEX_DIGITS[ds[i]] as int
  }

  lemma HexDigitIs(d: int)
    requires 0 <= d < 16
    ensures HexDigit(d) == HEX_DIGITS[d] as int
  {
    assert HEX_DIGITS == ['0', '1', '2', '3', '4', '5', '6', '7', '8', '9', 'a', 'b', 'c', 'd', 'e', 'f'];
  }

  lemma PlainIs(c: Code)
    ensures IsPlain(c) <==> IsOf(c, LETTERS) || IsOf(c, DIGITS)
  {
    if 97 <= c <= 122 {
      assert LETTERS[c - 97] as int == c;
    }
    if 48 <= c <= 57 {
      assert DIGITS[c - 48] as int == c;
    }
  }

  /** Hexadecimal writes the value, with no leading zero. */
  lemma {:induction false} HexIs(n: nat) returns (ds: seq<int>)
    ensures Spells(Hex(n), ds) && Value(ds) == n && ds != []
    ensures n > 0 ==> ds[0] != 0
    ensures |ds| == 1 <==> n < 16
    ensures |ds| <= 2 <==> n < 256
  {
    if n < 16 {
      HexDigitIs(n);
      ds := [n];
      assert Value(ds[..0]) == 0;
    } else {
      var rest := HexIs(n / 16);
      HexDigitIs(n % 16);
      ds := rest + [n % 16];
      assert ds[..|ds| - 1] == rest;
    }
  }

  /** What one code becomes: itself if it is a small letter or a digit, else '_' and its hexadecimal digits. */
  ghost predicate EncodedAs(c: Code, text: Text) {
    if IsOf(c, LETTERS) || IsOf(c, DIGITS) then text == [c]
    else exists ds :: |text| > 0 && text[0] == '_' as int && Spells(text[1..], ds) && Value(ds) == c
                      && (if c < 256 then |ds| == 2 else |ds| > 2 && ds[0] != 0)
  }

  lemma EncodeOneIs(c: Code)
    ensures EncodedAs(c, EncodeOne(c))
  {
    PlainIs(c);
    if !IsPlain(c) {
      var text := EncodeOne(c);
      var ds := HexIs(c);
      if c < 16 {
        HexDigitIs(0);
        assert Spells(text[1..], [0] + ds) && Value([0] + ds) == c by {
          assert [0] + ds == [0, c];
          assert [0, c][..1] == [0];
        }
      } else {
        assert text[1..] == Hex(c);
      }
    }
  }

  lemma EncodeConcat(a: Text, b: Text)
    ensures Encode(a + b) == Encode(a) + Encode(b)
  {
    FlatMapConcat(a, b, EncodeOne);
  }

  /** In the encoding of a text each code stands, in its place, as what one code becomes. */
  lemma EncodeEach(s: Text, i: nat) returns (text: Text)
    requires i < |s|
    ensures Encode(s) == Encode(s[..i]) + text + Encode(s[i + 1..]) && EncodedAs(s[i], text)
    ensures Encode([]) == []
  {
    text := EncodeOne(s[i]);
    EncodeOneIs(s[i]);
    var before, after := s[..i], s[i + 1..];
    SplitAround(s, i);
    EncodeConcat(before, [s[i]] + after);
    FlatMapCons(s[i], after, EncodeOne);
    Associative(Encode(before), text, Encode(after));
  }

  // ---------- Prefixes ----------

  predicate Bounded(s: Text, n: int) {
    forall i :: 0 <= i < |s| ==> s[i] < n
  }

  lemma EncodeOneShape(c: Code)
    requires c < 256
    ensures IsPlain(c) ==> EncodeOne(c) == [c]
    ensures !IsPlain(c) ==> EncodeOne(c) == [UNDERSCORE, HexDigit(c / 16), HexDigit(c % 16)]
  {
    if 16 <= c {
      assert Hex(c) == [HexDigit(c / 16)] + [HexDigit(c % 16)];
    }
  }

  /** No code's encoding is a prefix of another's, so the first codes can be told apart. */
  lemma FirstCode(a: Code, b: Code, x: Text, y: Text)
    requires a < 256 && b < 256
    requires EncodeOne(a) + x <= EncodeOne(b) + y
    ensures a == b && x <= y
  {
    EncodeOneShape(a);
    EncodeOneShape(b);
    var s, t := EncodeOne(a) + x, EncodeOne(b) + y;
    assert s[0] == t[0];
    assert IsPlain(a) == IsPlain(b);
    if !IsPlain(a) {
      assert s[1] == t[1] && s[2] == t[2];
      assert a / 16 == b / 16 && a % 16 == b % 16;
    }
    var n := |EncodeOne(a)|;
    assert s[n..] == x && t[n..] == y;
    assert s == t[..|s|];
  }

  /** Whatever follows them, the texts of c and d can be told apart from the left. */
  ghost predicate Told(f: Code -> Text, c: Code, d: Code) {
    forall x: Text, y: Text :: f(c) + x <= f(d) + y ==> c == d && x <= y
  }

  ghost predicate PrefixFree(f: Code -> Text, n: int) {
    && (forall c: Code :: c < n ==> f(c) != [])
    && (forall c: Code, d: Code :: c < n && d < n ==> Told(f, c, d))
  }

  lemma FlatMapPrefix(a: Text, b: Text, f: Code -> Text)
    requires a <= b
    ensures FlatMap(a, f) <= FlatMap(b, f)
  {
    FlatMapConcat(a, b[|a|..], f);
    assert a + b[|a|..] == b;
  }

  lemma {:induction false} FlatMapReflects(a: Text, b: Text, f: Code -> Text, n: int)
    requires PrefixFree(f, n) && Bounded(a, n) && Bounded(b, n)
    requires FlatMap(a, f) <= FlatMap(b, f)
    ensures a <= b
  {
    if a == [] {
    } else {
      assert f(a[0]) != [];
      assert b != [];
      assert Told(f, a[0], b[0]);
      var x, y := FlatMap(a[1..], f), FlatMap(b[1..], f);
      assert f(a[0]) + x <= f(b[0]) + y;
      FlatMapReflects(a[1..], b[1..], f, n);
      PrefixCons(a, b);
    }
  }

  /** A prefix-free replacement keeps prefixes, both ways. */
  lemma FlatMapKeepsPrefixes(a: Text, b: Text, f: Code -> Text, n: int)
    requires PrefixFree(f, n) && Bounded(a, n) && Bounded(b, n)
    ensures FlatMap(a, f) <= FlatMap(b, f) <==> a <= b
  {
    if a <= b {
      FlatMapPrefix(a, b, f);
    }
    if FlatMap(a, f) <= FlatMap(b, f) {
      FlatMapReflects(a, b, f, n);
    }
  }

  lemma EncodePrefixFree()
    ensures PrefixFree(EncodeOne, 256)
  {
    forall c: Code | c < 256
      ensures EncodeOne(c) != []
    {
      EncodeOneShape(c);
    }
    forall c: Code, d: Code | c < 256 && d < 256
      ensures Told(EncodeOne, c, d)
    {
      forall x: Text, y: Text | EncodeOne(c) + x <= EncodeOne(d) + y
        ensures c == d && x <= y
      {
        FirstCode(c, d, x, y);
      }
    }
  }

  /** For codes below 256 the encoding keeps prefixes, both ways. */
  lemma EncodeKeepsPrefixes(a: Text, b: Text)
    requires Bounded(a, 256) && Bounded(b, 256)
    ensures Encode(a) <= Encode(b) <==> a <= b
  {
    EncodePrefixFree();
    FlatMapKeepsPrefixes(a, b, EncodeOne, 256);
  }

  lemma EncodeInjective(a: Text, b: Text)
    requires Bounded(a, 256) && Bounded(b, 256) && Encode(a) == Encode(b)
    ensures a == b
  {
    EncodeKeepsPrefixes(a, b);
    EncodeKeepsPrefixes(b, a);
  }

  /** U+0100 is encoded like U+0010 followed by the digit zero. */
  lemma WideClash()
    ensures Encode([0x100]) == Encode([0x10, 48]) && !([0x100] <= [0x10, 48])
  {
    assert Hex(0x100) == [49] + [48] + [48] by {
      assert Hex(0x10) == [49] + [48];
    }
    assert Hex(0x10) == [49] + [48];
    assert Encode([0x100]) == [UNDERSCORE, 49, 48, 48];
    assert [0x10, 48][1..] == [48];
    assert Encode([48]) == [48];
    assert Encode([0x10, 48]) == [UNDERSCORE, 49, 48] + [48];
  }

  /** The encoding keeps prefixes on the strings over codes below n exactly when n is at most 256. */
  lemma EncodeKeepsPrefixesIff(n: int)
    ensures (forall a, b :: Bounded(a, n) && Bounded(b, n) ==> (Encode(a) <= Encode(b) <==> a <= b)) <==> n <= 256
  {
    if n <= 256 {
      forall a, b | Bounded(a, n) && Bounded(b, n)
        ensures Encode(a) <= Encode(b) <==> a <= b
      {
        EncodeKeepsPrefixes(a, b);
      }
    } else {
      WideClash();
      assert Bounded([0x100], n) && Bounded([0x10, 48], n);
    }
  }

  // ---------- The row filter ----------

  /** `toLowerCase` on Latin-1. */
  function LowerCode(c: Code): Code {
    if 65 <= c <= 90 || (0xC0 <= c <= 0xDE && c != 0xD7) then c + 32 else c
  }

  const CAPITALS := "ABCDEFGHIJKLMNOPQRSTUVWXYZ"

  /** Capital letters become small ones, the accented ones of Latin-1 included; the rest stays. */
  lemma LowerCodeIs(c: Code)
    ensures forall i :: 0 <= i < 26 && c == CAPITALS[i] as int ==> LowerCode(c) == LETTERS[i] as int
    ensures 192 <= c <= 214 || 216 <= c <= 222 ==> LowerCode(c) == c + 32
    ensures !IsOf(c, CAPITALS) && !(192 <= c <= 214) && !(216 <= c <= 222) ==> LowerCode(c) == c
  {
    if 65 <= c <= 90 {
      assert CAPITALS[c - 65] as int == c;
    }
    forall i | 0 <= i < 26
      ensures CAPITALS[i] as int == 65 + i && LETTERS[i] as int == 97 + i
    {
    }
  }

  function Lower(s: Text): Text {
    seq(|s|, i requires 0 <= i < |s| => LowerCode(s[i]))
  }

  function StripLeading(s: Text): Text {
    if s != [] && s[0] == SPACE then StripLeading(s[1..]) else s
  }

  function StripTrailing(s: Text): Text {
    if s != [] && s[|s| - 1] == SPACE then StripTrailing(s[..|s| - 1]) else s
  }

  /** The search term as it is compared: spaces stripped at both ends, lower case. */
  function Term(search: Text): Text {
    Lower(StripTrailing(StripLeading(search)))
  }

  predicate IsDigit(c: Code) {
    48 <= c <= 57
  }

  lemma DigitIs(c: Code)
    ensures IsDigit(c) <==> IsOf(c, DIGITS)
  {
    if 48 <= c <= 57 {
      assert DIGITS[c - 48] as int == c;
    }
  }

  function DropDigits(s: Text): Text {
    if s != [] && IsDigit(s[0]) then DropDigits(s[1..]) else s
  }

  /** replace(/^sr\d*_/, ''). */
  function StripSr(s: Text): Text {
    if |s| >= 2 && s[0] == 115 && s[1] == 114 then
      var rest := DropDigits(s[2..]);
      if rest != [] && rest[0] == UNDERSCORE then rest[1..] else s
    else s
  }

  predicate RowMatches(id: Text, encoded: Text) {
    encoded <= StripSr(Lower(id))
  }

  class Row {
    const isResult: bool    // className == "SRResult"
    const id: Text
    var display: bool

    constructor (isResult: bool, id: Text, display: bool)
      ensures this.isResult == isResult && this.id == id && this.display == display
    {
      this.isResult, this.id, this.display := isResult, id, display;
    }
  }

  predicate Hit(r: Row, encoded: Text) {
    r.isResult && RowMatches(r.id, encoded)
  }

  function CountMatches(rows: seq<Row>, encoded: Text): nat {
    if rows == [] then 0
    else CountMatches(rows[..|rows| - 1], encoded) + if Hit(rows[|rows| - 1], encoded) then 1 else 0
  }

  ghost function HitRows(rows: seq<Row>, encoded: Text): set<Row> {
    set r | r in rows && Hit(r, encoded)
  }

  lemma HitRowsPush(before: seq<Row>, r: Row, encoded: Text)
    ensures HitRows(before + [r], encoded) == HitRows(before, encoded) + if Hit(r, encoded) then {r} else {}
  {
    forall x
      ensures x in before + [r] <==> x in before || x == r
    {
    }
  }

  lemma CountPush(before: seq<Row>, r: Row, encoded: Text)
    ensures CountMatches(before + [r], encoded) == CountMatches(before, encoded) + if Hit(r, encoded) then 1 else 0
  {
    assert (before + [r])[..|before|] == before;
  }

  /** The count is the number of matching rows. */
  lemma {:induction false} CountIs(rows: seq<Row>, encoded: Text)
    requires Distinct(rows)
    ensures CountMatches(rows, encoded) == |HitRows(rows, encoded)|
  {
    if rows == [] {
    } else {
      var before, r := rows[..|rows| - 1], rows[|rows| - 1];
      DistinctFront(rows);
      CountIs(before, encoded);
      HitRowsPush(before, r, encoded);
      CountPush(before, r, encoded);
    }
  }

  /** The id that the index generator gives to the row of a name: SR, an optional number, the encoded name. */
  function RowId(number: Text, name: Text): Text {
    [83, 82] + number + [UNDERSCORE] + Encode(name)
  }

  predicate AllDigits(number: Text) {
    forall i :: 0 <= i < |number| ==> IsOf(number[i], DIGITS)
  }

  /** A result row is on display iff its stripped id starts with the encoded term. */
  ghost predicate ShowsMatches(rows: seq<Row>, text: Text)
    reads rows
  {
    forall r :: r in rows && r.isResult ==> (r.display <==> RowMatches(r.id, Encode(Term(text))))
  }

  /** The row of a name is on display iff the name starts with the term. */
  ghost predicate ShowsNames(rows: seq<Row>, text: Text)
    reads rows
  {
    forall r, number, name ::
      r in rows && r.isResult && r.id == RowId(number, name) && AllDigits(number) && Bounded(name, 256) ==>
        (r.display <==> Term(text) <= name)
  }

  class SearchResults {
    var lastMatchCount: nat
    var searchingShown: bool
    var noMatchesShown: bool

    constructor ()
    {
      lastMatchCount, searchingShown, noMatchesShown := 0, true, false;
    }

    /** `location` is the page's query string, with its leading '?', and `unescape` the browser's function. */
    method Search(search: Text, location: Text, unescape: Text -> Text, rows: seq<Row>)
      requires Distinct(rows)
      modifies this, rows
      ensures search != [] ==> ShowsMatches(rows, search)
      ensures search != [] && Bounded(search, 256) ==> ShowsNames(rows, search)
      ensures forall q: Text :: search == [] && location == [QUESTION] + q ==> ShowsMatches(rows, unescape(q))
      ensures forall q: Text :: search == [] && location == [QUESTION] + q && Bounded(unescape(q), 256) ==>
        ShowsNames(rows, unescape(q))
      ensures search == [] && location == [] ==> ShowsMatches(rows, unescape([]))
      ensures forall r :: r in rows && !r.isResult ==> r.display == old(r.display)
      ensures lastMatchCount == |set r | r in rows && r.isResult && r.display|
      ensures !searchingShown && (noMatchesShown <==> lastMatchCount == 0)
    {
      var text := search;
      if text == [] {
        text := unescape(if location == [] then [] else location[1..]);
      }
      assert forall q: Text :: location == [QUESTION] + q ==> location[1..] == q;
      var encoded := ConvertToId(Term(text));
      lastMatchCount := FilterRows(encoded, rows);
      searchingShown := false;
      noMatchesShown := lastMatchCount == 0;
      CountIs(rows, encoded);
      assert (set r | r in rows && r.isResult && r.display) == HitRows(rows, encoded);
      MatchesAreNames(rows, text);
    }
  }

  lemma MatchesAreNames(rows: seq<Row>, text: Text)
    ensures ShowsMatches(rows, text) && Bounded(text, 256) ==> ShowsNames(rows, text)
  {
    if ShowsMatches(rows, text) && Bounded(text, 256) {
      forall r, number, name |
        r in rows && r.isResult && r.id == RowId(number, name) && AllDigits(number) && Bounded(name, 256)
        ensures r.display <==> Term(text) <= name
      {
        RowShownIff(number, name, text);
      }
    }
  }

  lemma CountNext(rows: seq<Row>, i: nat, encoded: Text)
    requires i < |rows|
    ensures CountMatches(rows[..i + 1], encoded) ==
            CountMatches(rows[..i], encoded) + if Hit(rows[i], encoded) then 1 else 0
  {
    TakeNext(rows, i);
    CountPush(rows[..i], rows[i], encoded);
  }

  method FilterRows(encoded: Text, rows: seq<Row>) returns (matches: nat)
    requires Distinct(rows)
    modifies rows
    ensures forall i :: 0 <= i < |rows| ==>
      rows[i].display == if rows[i].isResult then Hit(rows[i], encoded) else old(rows[i].display)
    ensures matches == CountMatches(rows, encoded)
  {
    ghost var hits := seq(|rows|, j requires 0 <= j < |rows| => Hit(rows[j], encoded));
    matches := FilterLoop(encoded, rows, hits);
  }

  /** The loop, over rows of which `hits` says whether they match. */
  method FilterLoop(encoded: Text, rows: seq<Row>, ghost hits: seq<bool>) returns (matches: nat)
    requires Distinct(rows) && |hits| == |rows|
    requires forall j {:trigger Hit(rows[j], encoded)} :: 0 <= j < |rows| ==> hits[j] == Hit(rows[j], encoded)
    modifies rows
    ensures forall j :: 0 <= j < |rows| ==>
      rows[j].display == if rows[j].isResult then hits[j] else old(rows[j].display)
    ensures matches == CountMatches(rows, encoded)
  {
    matches := 0;
    var i := 0;
    while i < |rows|
      invariant 0 <= i <= |rows|
      invariant matches == CountMatches(rows[..i], encoded)
      invariant forall j :: 0 <= j < i ==>
        rows[j].display == if rows[j].isResult then hits[j] else old(rows[j].display)
      invariant forall j :: i <= j < |rows| ==> rows[j].display == old(rows[j].display)
    {
      CountNext(rows, i, encoded);
      var shown := FilterRow(encoded, rows[i]);
      if shown {
        matches := matches + 1;
      }
      i := i + 1;
    }
    assert rows[..|rows|] == rows;
  }

  method FilterRow(encoded: Text, row: Row) returns (shown: bool)
    modifies row
    ensures shown <==> Hit(row, encoded)
    ensures row.display == if row.isResult then shown else old(row.display)
  {
    shown := false;
    if row.isResult {
      var name := StripSr(Lower(row.id));
      if |encoded| <= |name| && name[..|encoded|] == encoded {
        row.display := true;
        shown := true;
      } else {
        row.display := false;
      }
    }
  }

  // ---------- What the filter selects ----------

  lemma {:induction false} HexIsLower(n: nat)
    ensures Lower(Hex(n)) == Hex(n)
  {
    if n < 16 {
    } else {
      HexIsLower(n / 16);
    }
  }

  lemma {:induction false} EncodeIsLower(s: Text)
    ensures Lower(Encode(s)) == Encode(s)
  {
    if s == [] {
    } else {
      HexIsLower(s[0]);
      EncodeIsLower(s[1..]);
      LowerConcat(EncodeOne(s[0]), Encode(s[1..]));
      assert Lower(EncodeOne(s[0])) == EncodeOne(s[0]);
    }
  }

  lemma LowerConcat(a: Text, b: Text)
    ensures Lower(a + b) == Lower(a) + Lower(b)
  {
  }

  lemma {:induction false} DropDigitsAll(number: Text, rest: Text)
    requires AllDigits(number)
    requires rest != [] && !IsDigit(rest[0])
    ensures DropDigits(number + rest) == rest
  {
    if number == [] {
      assert number + rest == rest;
    } else {
      DigitIs(number[0]);
      DropDigitsAll(number[1..], rest);
      assert (number + rest)[1..] == number[1..] + rest;
    }
  }

  lemma StripSrNumbered(number: Text, encoded: Text)
    requires AllDigits(number)
    ensures StripSr([115, 114] + number + [UNDERSCORE] + encoded) == encoded
  {
    var tail := [UNDERSCORE] + encoded;
    var s := [115, 114] + number + [UNDERSCORE] + encoded;
    assert s[2..] == number + tail;
    DropDigitsAll(number, tail);
    assert tail[1..] == encoded;
  }

  /** Stripping the lower-cased id gives back the encoded name. */
  lemma RowIdStripped(number: Text, name: Text)
    requires AllDigits(number)
    ensures StripSr(Lower(RowId(number, name))) == Encode(name)
  {
    var encoded := Encode(name);
    EncodeIsLower(name);
    LowerConcat([83, 82] + number + [UNDERSCORE], encoded);
    assert Lower([83, 82] + number + [UNDERSCORE]) == [115, 114] + number + [UNDERSCORE];
    StripSrNumbered(number, encoded);
  }

  /** The row of a name is shown iff the name starts with the search term. */
  lemma RowShownIff(number: Text, name: Text, search: Text)
    requires AllDigits(number)
    requires Bounded(name, 256) && Bounded(search, 256)
    ensures RowMatches(RowId(number, name), Encode(Term(search))) <==> Term(search) <= name
  {
    RowIdStripped(number, name);
    StripBounded(search);
    EncodeKeepsPrefixes(Term(search), name);
  }

  predicate AllSpaces(s: Text) {
    forall i :: 0 <= i < |s| ==> s[i] == SPACE
  }

  lemma {:induction false} StripLeadingSpaces(left: Text, s: Text)
    requires AllSpaces(left) && s != [] && s[0] != SPACE
    ensures StripLeading(left + s) == s
  {
    if left == [] {
      assert left + s == s;
    } else {
      StripLeadingSpaces(left[1..], s);
      assert (left + s)[1..] == left[1..] + s;
    }
  }

  lemma {:induction false} StripTrailingSpaces(s: Text, right: Text)
    requires AllSpaces(right) && s != [] && s[|s| - 1] != SPACE
    ensures StripTrailing(s + right) == s
  {
    if right == [] {
      assert s + right == s;
    } else {
      var k := |right| - 1;
      StripTrailingSpaces(s, right[..k]);
      assert (s + right)[..|s| + k] == s + right[..k];
    }
  }

  /** Spaces around the query do not matter; those inside stay. */
  lemma TermTrims(left: Text, s: Text, right: Text)
    requires AllSpaces(left) && AllSpaces(right) && s != [] && s[0] != SPACE && s[|s| - 1] != SPACE
    ensures Term(left + s + right) == Lower(s)
  {
    assert left + s + right == left + (s + right);
    StripLeadingSpaces(left, s + right);
    StripTrailingSpaces(s, right);
  }

  /** A query of spaces only leaves nothing to search for. */
  lemma {:induction false} TermOfSpaces(s: Text)
    requires AllSpaces(s)
    ensures Term(s) == []
  {
    if s == [] {
    } else {
      TermOfSpaces(s[1..]);
    }
  }

  /** The row id without its prefix: "sr", any digits and '_' are cut off, in an id that starts so. */
  ghost predicate Numbered(s: Text, number: Text, rest: Text) {
    AllDigits(number) && s == [115, 114] + number + [UNDERSCORE] + rest
  }

  lemma {:induction false} DropDigitsIs(s: Text) returns (number: Text)
    ensures AllDigits(number) && s == number + DropDigits(s)
    ensures DropDigits(s) == [] || !IsDigit(DropDigits(s)[0])
  {
    if s == [] || !IsDigit(s[0]) {
      number := [];
    } else {
      DigitIs(s[0]);
      var rest := DropDigitsIs(s[1..]);
      number := [s[0]] + rest;
    }
  }

  /** Any other id stays as it is. */
  lemma StripSrIs(s: Text)
    ensures forall number, rest :: Numbered(s, number, rest) ==> StripSr(s) == rest
    ensures (forall number, rest :: !Numbered(s, number, rest)) ==> StripSr(s) == s
  {
    forall number, rest | Numbered(s, number, rest)
      ensures StripSr(s) == rest
    {
      StripSrNumbered(number, rest);
    }
    if |s| >= 2 && s[0] == 115 && s[1] == 114 {
      var number := DropDigitsIs(s[2..]);
      var tail := DropDigits(s[2..]);
      if tail != [] && tail[0] == UNDERSCORE {
        assert s == [115, 114] + number + [UNDERSCORE] + tail[1..];
        assert Numbered(s, number, tail[1..]);
      }
    }
  }

  lemma {:induction false} StripLeadingBounded(s: Text)
    requires Bounded(s, 256)
    ensures Bounded(StripLeading(s), 256)
  {
    if s == [] || s[0] != SPACE {
    } else {
      StripLeadingBounded(s[1..]);
    }
  }

  lemma {:induction false} StripTrailingBounded(s: Text)
    requires Bounded(s, 256)
    ensures Bounded(StripTrailing(s), 256)
  {
    if s == [] || s[|s| - 1] != SPACE {
    } else {
      StripTrailingBounded(s[..|s| - 1]);
    }
  }

  lemma StripBounded(search: Text)
    requires Bounded(search, 256)
    ensures Bounded(Term(search), 256)
  {
    StripLeadingBounded(search);
    StripTrailingBounded(StripLeading(search));
  }
}
