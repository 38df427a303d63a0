/**
 * Three pure helpers of the viewer page script: `localName` (QName prefix
 * stripping), `getLabel` (label lookup by role with an `en` → `en-us`
 * fallback) and the step of `b64DecodeUnicode` that turns each character of
 * the decoded base64 string into a `%hh` escape for `decodeURIComponent`.
 */
module ViewerTemplate {
  import opened Wrappers

  // ---------------------------------------------------------------------------
  // localName

  /** `s.indexOf(c)`: the first position of `c`, or -1. */
  function IndexOf(s: string, c: char): (r: int)
    ensures -1 <= r < |s|
    ensures r == -1 <==> c !in s
    ensures r >= 0 ==> s[r] == c && c !in s[..r]
  {
    if |s| == 0 then -1
    else if s[0] == c then 0
    else
      var k := IndexOf(s[1..], c);
      if k == -1 then -1
      else
        assert s[..k + 1] == [s[0]] + s[1..][..k];
        k + 1
  }

  /** `localName(e)`: the name without its prefix. Without a colon the name
      is returned as it is; otherwise what follows the first colon, later
      colons included. */
  function LocalName(e: string): (r: string)
    ensures |r| <= |e| && e[|e| - |r|..] == r
    ensures ':' !in e ==> r == e
    ensures ':' in e ==> |r| < |e| && e[|e| - |r| - 1] == ':' && ':' !in e[..|e| - |r| - 1]
  {
    if IndexOf(e, ':') == -1 then e else e[IndexOf(e, ':') + 1..]
  }

  /** Splitting a prefixed name at its first colon gives back the local part,
      whatever colons it holds. */
  lemma {:induction false} LocalNameOfPrefixed(prefix: string, local: string)
    requires ':' !in prefix
    ensures LocalName(prefix + ":" + local) == local
  {
    var e := prefix + ":" + local;
    assert e[..|prefix|] == prefix;
    assert e[|prefix|] == ':';
    assert e[|e| - |local|..] == local;
  }

  // ---------------------------------------------------------------------------
  // getLabel

  /** A concept's labels: per role, per language, a text. */
  datatype Concept = Concept(labels: map<string, map<string, string>>)

  /** The part of the taxonomy data that `getLabel` reads. */
  datatype Taxonomy = Taxonomy(concepts: map<string, Concept>)

  /** What a call returns, or the TypeError it throws. */
  datatype Outcome<T> = Throws | Returns(value: T)

  /** `getLabel(c, rolePrefix)`, the taxonomy being a parameter rather than a
      global. Reading `labels` of a concept that is not there throws; a role
      without labels gives `undefined`; otherwise `labels["en"] ||
      labels["en-us"]`, an empty `en` label counting as absent. */
  function GetLabel(taxonomy: Taxonomy, c: string, rolePrefix: string): (r: Outcome<Option<string>>)
    ensures r.Throws? <==> c !in taxonomy.concepts
    ensures c in taxonomy.concepts && rolePrefix !in taxonomy.concepts[c].labels ==> r == Returns(None)
    ensures c in taxonomy.concepts && rolePrefix in taxonomy.concepts[c].labels ==>
      var labels := taxonomy.concepts[c].labels[rolePrefix];
      && ("en" in labels && labels["en"] != "" ==> r == Returns(Some(labels["en"])))
      && (("en" !in labels || labels["en"] == "") ==> r == Returns(if "en-us" in labels then Some(labels["en-us"]) else None))
    ensures r.Returns? && r.value.Some? ==>
      var labels := taxonomy.concepts[c].labels[rolePrefix];
      || ("en" in labels && labels["en"] != "" && r.value.value == labels["en"])
      || (("en" !in labels || labels["en"] == "") && "en-us" in labels && r.value.value == labels["en-us"])
  {
    if c !in taxonomy.concepts then Throws
    else
      var roles := taxonomy.concepts[c].labels;
      if rolePrefix !in roles then Returns(None)
      else
        var labels := roles[rolePrefix];
        if "en" in labels && labels["en"] != "" then Returns(Some(labels["en"]))
        else if "en-us" in labels then Returns(Some(labels["en-us"]))
        else Returns(None)
  }

  /** A non-empty `en` label wins, whatever other languages the role has. */
  lemma EnglishFirst(taxonomy: Taxonomy, c: string, rolePrefix: string)
    requires c in taxonomy.concepts && rolePrefix in taxonomy.concepts[c].labels
    requires var labels := taxonomy.concepts[c].labels[rolePrefix];
      "en" in labels && labels["en"] != ""
    ensures GetLabel(taxonomy, c, rolePrefix) == Returns(Some(taxonomy.concepts[c].labels[rolePrefix]["en"]))
  {
  }

  /** A missing or empty `en` label falls back to `en-us`, when there is one. */
  lemma EnglishUsFallback(taxonomy: Taxonomy, c: string, rolePrefix: string)
    requires c in taxonomy.concepts && rolePrefix in taxonomy.concepts[c].labels
    requires var labels := taxonomy.concepts[c].labels[rolePrefix];
      ("en" !in labels || labels["en"] == "") && "en-us" in labels
    ensures GetLabel(taxonomy, c, rolePrefix) == Returns(Some(taxonomy.concepts[c].labels[rolePrefix]["en-us"]))
  {
  }

  /** Without an `en-us` label, a missing or empty `en` label gives `undefined`. */
  lemma NoEnglishLabel(taxonomy: Taxonomy, c: string, rolePrefix: string)
    requires c in taxonomy.concepts && rolePrefix in taxonomy.concepts[c].labels
    requires var labels := taxonomy.concepts[c].labels[rolePrefix];
      "en-us" !in labels && ("en" !in labels || labels["en"] == "")
    ensures GetLabel(taxonomy, c, rolePrefix) == Returns(None)
  {
  }

  // ---------------------------------------------------------------------------
  // The %hh escapes of b64DecodeUnicode

  const HexDigits := "0123456789abcdef"

  /** `n.toString(16)` */
  function ToHex(n: nat): (r: string)
    ensures |r| > 0 && r[|r| - 1] == HexDigits[n % 16]
  {
    if n < 16 then [HexDigits[n]] else ToHex(n / 16) + [HexDigits[n % 16]]
  }

  /** `('00' + n.toString(16)).slice(-2)` */
  function TwoHexDigits(n: nat): (r: string)
    ensures |r| == 2 && r == [HexDigits[(n / 16) % 16], HexDigits[n % 16]]
  {
    var padded := "00" + ToHex(n);
    if n < 16 then
      assert padded == ['0', '0', HexDigits[n]];
      padded[|padded| - 2..]
    else
      var high := ToHex(n / 16);
      assert padded == "00" + high + [HexDigits[n % 16]];
      assert padded[|padded| - 2] == high[|high| - 1];
      padded[|padded| - 2..]
  }

  /** One character of the decoded base64 string as its `%hh` escape. */
  function EscapeChar(c: char): (r: string)
    ensures |r| == 3 && r[0] == '%'
  {
    "%" + TwoHexDigits(c as int)
  }

  /** `Array.prototype.map.call(str, escape).join('')` */
  function Escape(s: string): (r: string)
    ensures |r| == 3 * |s|
    ensures forall i :: 0 <= i < |s| ==> r[3 * i..3 * i + 3] == EscapeChar(s[i])
  {
    if |s| == 0 then ""
    else
      var rest := Escape(s[1..]);
      var r := EscapeChar(s[0]) + rest;
      assert forall i :: 1 <= i < |s| ==> r[3 * i..3 * i + 3] == rest[3 * (i - 1)..3 * (i - 1) + 3];
      r
  }

  /** The value of a lowercase hexadecimal digit. */
  function HexValue(d: char): Option<nat> {
    if '0' <= d <= '9' then Some(d as int - '0' as int)
    else if 'a' <= d <= 'f' then Some(d as int - 'a' as int + 10)
    else None
  }

  lemma HexValueOfDigit(k: nat)
    requires k < 16
    ensures HexValue(HexDigits[k]) == Some(k)
  {
  }

  /** The bytes that `decodeURIComponent` reads from a string made only of
      `%hh` escapes, before it decodes them as UTF-8; None for anything else. */
  function EscapedBytes(t: string): (r: Option<seq<nat>>)
    ensures r.Some? ==> |t| == 3 * |r.value| && forall i :: 0 <= i < |r.value| ==> r.value[i] < 256
  {
    if |t| == 0 then Some([])
    else if |t| < 3 || t[0] != '%' || HexValue(t[1]).None? || HexValue(t[2]).None? then None
    else
      match EscapedBytes(t[3..])
      case None => None
      case Some(rest) => Some([HexValue(t[1]).value * 16 + HexValue(t[2]).value] + rest)
  }

  /** Each character's code modulo 256: the character itself for the
      characters `atob` yields, whose codes are below 256. */
  function LowBytes(s: string): (r: seq<nat>)
    ensures |r| == |s|
    ensures forall i :: 0 <= i < |s| ==> r[i] == (s[i] as int) % 256
    ensures forall i :: 0 <= i < |s| && (s[i] as int) < 256 ==> r[i] == s[i] as int
  {
    if |s| == 0 then [] else [(s[0] as int) % 256] + LowBytes(s[1..])
  }

  /** Undoing the escapes gives back the characters' low bytes. */
  lemma {:induction false} EscapeRoundTrip(s: string)
    ensures EscapedBytes(Escape(s)) == Some(LowBytes(s))
  {
    if |s| > 0 {
      EscapeRoundTrip(s[1..]);
      assert Escape(s) == EscapeChar(s[0]) + Escape(s[1..]);
      EscapedBytesOfEscape(s[0], Escape(s[1..]));
    }
  }

  /** An escape in front stands for one byte, the character's code modulo 256. */
  lemma EscapedBytesOfEscape(c: char, u: string)
    ensures EscapedBytes(EscapeChar(c) + u)
         == match EscapedBytes(u) case None => None case Some(bs) => Some([(c as int) % 256] + bs)
  {
    var n := c as int;
    var t := EscapeChar(c) + u;
    var high, low := (n / 16) % 16, n % 16;
    assert t[3..] == u;
    assert t[0] == '%' && t[1] == HexDigits[high] && t[2] == HexDigits[low];
    HexValueOfDigit(high);
    HexValueOfDigit(low);
    SplitByte(n);
  }

  /** The two hexadecimal digits of the low byte. */
  lemma SplitByte(n: nat)
    ensures ((n / 16) % 16) * 16 + n % 16 == n % 256
  {
    var q := n / 256;
    var r := n % 256;
    assert n == 256 * q + r;
    assert n / 16 == 16 * q + r / 16;
    assert n % 16 == r % 16;
    assert (n / 16) % 16 == r / 16;
  }
}
