/** System IDs: 6 bytes on the wire, dotted lower-case hex in the configuration,
    and a big-endian integer as database key. */
module SystemId {
  import opened Bytes

  /** The lower-case hex digit of a half byte. */
  function HexDigit(n: int): (c: char)
    requires 0 <= n < 16
    ensures IsHex(c) && HexValue(c) == n
  {
    if n < 10 then '0' + n as char else 'a' + (n - 10) as char
  }

  predicate IsHex(c: char) {
    '0' <= c <= '9' || 'a' <= c <= 'f'
  }

  /** hex.EncodeToString. */
  function Hex(bs: seq<byte>): (s: string)
    ensures |s| == 2 * |bs|
    ensures AllHex(s)
  {
    if bs == [] then "" else [HexDigit(bs[0] / 16), HexDigit(bs[0] % 16)] + Hex(bs[1..])
  }

  predicate AllHex(s: string) {
    forall i :: 0 <= i < |s| ==> IsHex(s[i])
  }

  /** The value of a hex digit of either case, -1 for any other character. */
  function HexValue(c: char): int {
    if '0' <= c <= '9' then c as int - '0' as int
    else if 'a' <= c <= 'f' then c as int - 'a' as int + 10
    else if 'A' <= c <= 'F' then c as int - 'A' as int + 10
    else -1
  }

  /** hex.DecodeString with its error ignored: the bytes before the first bad pair. */
  function HexDecode(s: string): seq<byte> {
    if |s| < 2 || HexValue(s[0]) < 0 || HexValue(s[1]) < 0 then []
    else [HexValue(s[0]) * 16 + HexValue(s[1])] + HexDecode(s[2..])
  }

  /** strings.Replace(s, ".", "", n). */
  function RemoveDots(s: string, n: nat): string {
    if s == "" || n == 0 then s
    else if s[0] == '.' then RemoveDots(s[1..], n - 1)
    else [s[0]] + RemoveDots(s[1..], n)
  }

  /** The text form of a system ID; empty unless there are exactly 6 bytes. */
  function Text(id: seq<byte>): string {
    if |id| != 6 then ""
    else Hex(id[0..2]) + "." + Hex(id[2..4]) + "." + Hex(id[4..6])
  }

  const DIGITS := "0123456789abcdef"

  /** s spells the bytes of id in hex, high half first, with a dot after every second byte. */
  predicate Spells(s: string, id: Bytes6) {
    && |s| == 14 && s[4] == '.' && s[9] == '.'
    && forall j :: 0 <= j < 6 ==>
         s[2 * j + j / 2] == DIGITS[id[j] / 16] && s[2 * j + j / 2 + 1] == DIGITS[id[j] % 16]
  }

  method SystemIDToString(id: seq<byte>) returns (result: string)
    ensures result == Text(id)
    ensures if |id| == 6 then Spells(result, id) else result == ""
  {
    if |id| != 6 {
      return "";
    }
    result := "";
    for i := 0 to 3
      invariant i == 0 ==> result == ""
      invariant i == 1 ==> result == Hex(id[0..2]) + "."
      invariant i == 2 ==> result == Hex(id[0..2]) + "." + Hex(id[2..4]) + "."
      invariant i == 3 ==> result == Text(id)
    {
      result := result + Hex(id[i * 2..i * 2 + 2]);
      if i != 2 {
        result := result + ".";
      }
    }
    TextSpells(id);
  }

  lemma HexOfTwo(x: byte, y: byte)
    ensures Hex([x, y]) == [HexDigit(x / 16), HexDigit(x % 16), HexDigit(y / 16), HexDigit(y % 16)]
  {
    assert [x, y][1..] == [y] && [y][1..] == [];
  }

  lemma DigitIsSpelled(b: byte)
    ensures HexDigit(b / 16) == DIGITS[b / 16] && HexDigit(b % 16) == DIGITS[b % 16]
  {
  }

  lemma TextChars(id: Bytes6)
    ensures Text(id) ==
      [HexDigit(id[0] / 16), HexDigit(id[0] % 16), HexDigit(id[1] / 16), HexDigit(id[1] % 16), '.',
       HexDigit(id[2] / 16), HexDigit(id[2] % 16), HexDigit(id[3] / 16), HexDigit(id[3] % 16), '.',
       HexDigit(id[4] / 16), HexDigit(id[4] % 16), HexDigit(id[5] / 16), HexDigit(id[5] % 16)]
  {
    assert id[0..2] == [id[0], id[1]] && id[2..4] == [id[2], id[3]] && id[4..6] == [id[4], id[5]];
    HexOfTwo(id[0], id[1]);
    HexOfTwo(id[2], id[3]);
    HexOfTwo(id[4], id[5]);
  }

  lemma CharsSpell(s: string, id: Bytes6, c: seq<char>)
    requires |c| == 12 && forall j :: 0 <= j < 6 ==> c[2 * j] == DIGITS[id[j] / 16] && c[2 * j + 1] == DIGITS[id[j] % 16]
    requires s == [c[0], c[1], c[2], c[3], '.', c[4], c[5], c[6], c[7], '.', c[8], c[9], c[10], c[11]]
    ensures Spells(s, id)
  {
    forall j | 0 <= j < 6 ensures s[2 * j + j / 2] == c[2 * j] && s[2 * j + j / 2 + 1] == c[2 * j + 1] {
      assert j == 0 || j == 1 || j == 2 || j == 3 || j == 4 || j == 5;
    }
  }

  lemma TextSpells(id: Bytes6)
    ensures Spells(Text(id), id)
  {
    TextChars(id);
    var c := seq(12, k requires 0 <= k < 12 => if k % 2 == 0 then HexDigit(id[k / 2] / 16) else HexDigit(id[k / 2] % 16));
    forall j | 0 <= j < 6 ensures c[2 * j] == DIGITS[id[j] / 16] && c[2 * j + 1] == DIGITS[id[j] % 16] {
      DigitIsSpelled(id[j]);
    }
    CharsSpell(Text(id), id, c);
  }

  /** systemIDToBytes: at most 6 decoded bytes, zero filled. */
  function FromText(s: string): Bytes6 {
    var bs := HexDecode(RemoveDots(s, 6));
    seq(6, i requires 0 <= i => if i < |bs| then bs[i] else 0)
  }

  /** lspIDToKey of the LSP ID that systemIDToLspID builds (pseudonode and fragment 0). */
  function LspId(id: Bytes6): Bytes8 {
    id + [0, 0]
  }

  function Key(s: string): nat {
    Uint64(LspId(FromText(s)))
  }

  // ----- Round trips -----------------------------------------------------------

  /** The form systemIDToString writes: three dotted groups of four lower-case hex digits.
      The comment on Config.sid asks for hex and leaves the case open. */
  predicate Canonical(s: string) {
    && |s| == 14 && s[4] == '.' && s[9] == '.'
    && forall i :: 0 <= i < 14 && i != 4 && i != 9 ==> IsHex(s[i])
  }

  lemma {:induction false} DecodeOfHex(bs: seq<byte>)
    ensures HexDecode(Hex(bs)) == bs
  {
    if bs != [] {
      DecodeOfHex(bs[1..]);
      var s := Hex(bs);
      assert s[0] == HexDigit(bs[0] / 16) && s[1] == HexDigit(bs[0] % 16);
      assert s[2..] == Hex(bs[1..]);
    }
  }

  lemma HexDigitRoundTrip(c: char)
    requires IsHex(c)
    ensures 0 <= HexValue(c) < 16 && HexDigit(HexValue(c)) == c
  {
  }

  lemma {:induction false} HexOfDecode(s: string)
    requires |s| % 2 == 0 && AllHex(s)
    ensures |HexDecode(s)| == |s| / 2 && Hex(HexDecode(s)) == s
  {
    if s != "" {
      HexOfDecode(s[2..]);
      HexDigitRoundTrip(s[0]);
      HexDigitRoundTrip(s[1]);
      var b := HexValue(s[0]) * 16 + HexValue(s[1]);
      assert b / 16 == HexValue(s[0]) && b % 16 == HexValue(s[1]);
      assert HexDecode(s)[1..] == HexDecode(s[2..]);
      assert s == [s[0], s[1]] + s[2..];
    }
  }

  predicate NoDots(s: string) {
    forall i :: 0 <= i < |s| ==> s[i] != '.'
  }

  lemma {:induction false} RemoveDotsSkips(a: string, b: string, n: nat)
    requires NoDots(a)
    ensures RemoveDots(a + b, n) == a + RemoveDots(b, n)
  {
    if a != "" {
      RemoveDotsSkips(a[1..], b, n);
      assert (a + b)[1..] == a[1..] + b;
    } else {
      assert a + b == b;
    }
  }

  lemma RemoveDotsStep(a: string, b: string, n: nat)
    requires NoDots(a) && n > 0
    ensures RemoveDots(a + "." + b, n) == a + RemoveDots(b, n - 1)
  {
    RemoveDotsSkips(a, "." + b, n);
    assert ("." + b)[1..] == b;
    assert a + "." + b == a + ("." + b);
  }

  lemma RemoveDotsOfGroups(a: string, b: string, c: string)
    requires NoDots(a) && NoDots(b) && NoDots(c)
    ensures RemoveDots(a + "." + b + "." + c, 6) == a + b + c
  {
    var tail := b + "." + c;
    assert a + "." + b + "." + c == a + "." + tail;
    RemoveDotsStep(a, tail, 6);
    RemoveDotsStep(b, c, 5);
    RemoveDotsNone(c, 4);
  }

  lemma RemoveDotsNone(a: string, n: nat)
    requires NoDots(a)
    ensures RemoveDots(a, n) == a
  {
    RemoveDotsSkips(a, "", n);
    assert a + "" == a;
  }

  lemma {:induction false} HexSplit(a: seq<byte>, b: seq<byte>)
    ensures Hex(a + b) == Hex(a) + Hex(b)
  {
    if a == [] {
      assert a + b == b;
    } else {
      var digits := [HexDigit(a[0] / 16), HexDigit(a[0] % 16)];
      calc {
        Hex(a + b);
        { assert (a + b)[0] == a[0] && (a + b)[1..] == a[1..] + b; }
        digits + Hex(a[1..] + b);
        { HexSplit(a[1..], b); }
        digits + (Hex(a[1..]) + Hex(b));
        digits + Hex(a[1..]) + Hex(b);
        Hex(a) + Hex(b);
      }
    }
  }

  /** systemIDToBytes inverts systemIDToString. */
  lemma FromTextOfText(id: Bytes6)
    ensures FromText(Text(id)) == id
  {
    var a, b, c := id[0..2], id[2..4], id[4..6];
    RemoveDotsOfGroups(Hex(a), Hex(b), Hex(c));
    HexSplit(a, b);
    HexSplit(a + b, c);
    assert id == a + b + c;
    DecodeOfHex(id);
  }

  lemma TextIsCanonical(id: Bytes6)
    ensures Canonical(Text(id))
  {
    var a, b, c := Hex(id[0..2]), Hex(id[2..4]), Hex(id[4..6]);
    var s := Text(id);
    assert s == a + "." + b + "." + c;
    forall i | 0 <= i < 14 && i != 4 && i != 9
      ensures IsHex(s[i])
    {
      if i < 4 { assert s[i] == a[i]; }
      else if 4 < i < 9 { assert s[i] == b[i - 5]; }
      else { assert s[i] == c[i - 10]; }
    }
  }

  lemma TextOfFromText(s: string)
    requires Canonical(s)
    ensures Text(FromText(s)) == s
  {
    var a, b, c := s[0..4], s[5..9], s[10..14];
    HexOfDecode(a);
    HexOfDecode(b);
    HexOfDecode(c);
    assert s == a + "." + b + "." + c;
    RemoveDotsOfGroups(a, b, c);
    var id := HexDecode(a) + HexDecode(b) + HexDecode(c);
    HexSplit(HexDecode(a), HexDecode(b));
    HexSplit(HexDecode(a) + HexDecode(b), HexDecode(c));
    assert Hex(id) == a + b + c;
    DecodeOfHex(id);
    assert FromText(s) == id;
    assert id[0..2] == HexDecode(a) && id[2..4] == HexDecode(b) && id[4..6] == HexDecode(c);
  }

  /** A configured system ID survives the trip through bytes exactly when it is dotted
      lower-case hex; any other text no longer matches the name in the router's own LSP. */
  lemma ConfiguredIdSurvivesIff(s: string)
    ensures Text(FromText(s)) == s <==> Canonical(s)
  {
    TextIsCanonical(FromText(s));
    if Canonical(s) {
      TextOfFromText(s);
    }
  }

  /** systemIDToBytes reads a dotted lower-case ID digit by digit, high half first. */
  lemma FromTextReads(s: string)
    requires Canonical(s)
    ensures Spells(s, FromText(s))
  {
    TextOfFromText(s);
    TextSpells(FromText(s));
  }

  /** Upper-case hex, which the documented format allows, is read as the same bytes, */
  lemma UpperCaseIsRead()
    ensures FromText("AB.CD") == FromText("ab.cd") == [0xAB, 0xCD, 0, 0, 0, 0]
  {
    assert RemoveDots("AB.CD", 6) == "ABCD" && RemoveDots("ab.cd", 6) == "abcd";
    assert HexDecode("ABCD") == [0xAB, 0xCD] && HexDecode("abcd") == [0xAB, 0xCD];
  }

  /** but does not survive. */
  lemma UpperCaseIsLost()
    ensures Text(FromText("ABCD.0000.0001")) != "ABCD.0000.0001"
  {
    ConfiguredIdSurvivesIff("ABCD.0000.0001");
    assert !Canonical("ABCD.0000.0001") by {
      assert "ABCD.0000.0001"[0] == 'A';
    }
  }

  /** Decoding stops at the first bad pair, and the error is ignored: missing bytes are 0. */
  lemma ErrorsAreIgnored()
    ensures FromText("") == [0, 0, 0, 0, 0, 0] && FromText("12xy34") == [0x12, 0, 0, 0, 0, 0]
    ensures FromText("123") == [0x12, 0, 0, 0, 0, 0]
  {
    RemoveDotsNone("12xy34", 6);
    RemoveDotsNone("123", 6);
    assert HexDecode("12xy34") == [0x12] && HexDecode("123") == [0x12];
  }

  /** Six dots are dropped, wherever they stand; */
  lemma SixDotsAreDropped()
    ensures FromText("......12") == [0x12, 0, 0, 0, 0, 0]
  {
    assert RemoveDots("......12", 6) == "12" && HexDecode("12") == [0x12];
  }

  /** a seventh stays, and decoding stops there. */
  lemma SeventhDotStays()
    ensures FromText(".......12") == [0, 0, 0, 0, 0, 0]
  {
    assert RemoveDots(".......12", 6) == ".12" && HexDecode(".12") == [];
  }

  lemma TextInjective(a: Bytes6, b: Bytes6)
    requires Text(a) == Text(b)
    ensures a == b
  {
    FromTextOfText(a);
    FromTextOfText(b);
  }

  /** Distinct system IDs never share a database key. */
  lemma KeyInjective(s: string, t: string)
    requires Canonical(s) && Canonical(t) && Key(s) == Key(t)
    ensures s == t
  {
    Uint64Injective(LspId(FromText(s)), LspId(FromText(t)));
    assert FromText(s) == LspId(FromText(s))[..6] && FromText(t) == LspId(FromText(t))[..6];
    TextOfFromText(s);
    TextOfFromText(t);
  }
}
