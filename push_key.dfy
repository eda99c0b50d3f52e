/** `urlBase64ToUint8Array`: a base64url application-server key (section 5 of
    RFC 4648) is padded, mapped onto the base64 alphabet (section 4), decoded
    by the browser's `atob`, and its character codes copied into a byte array.
    `atob` is a parameter: `None` stands for the exception it throws on
    malformed input. */
module PushKey {
  import opened Common

  /** An element of a `Uint8Array`. */
  newtype uint8 = x: int | 0 <= x < 256

  /** A length made of whole four-character groups. */
  predicate WholeGroups(m: int)
  {
    m % 4 == 0
  }

  /** The number of '=' characters appended to a key of length `n`: the fewest
      that complete the last four-character group. */
  function PaddingLength(n: nat): (k: nat)
    ensures k < 4
    ensures WholeGroups(n + k)
    ensures forall m :: n <= m < n + k ==> !WholeGroups(m)
    ensures k == 0 <==> WholeGroups(n)
  {
    (4 - n % 4) % 4
  }

  /** The key followed by its padding: a whole number of four-character groups. */
  function Padded(s: string): (p: string)
    ensures |p| % 4 == 0
    ensures |s| <= |p| < |s| + 4
    ensures p[..|s|] == s
    ensures forall i :: |s| <= i < |p| ==> p[i] == '='
  {
    s + seq(PaddingLength(|s|), _ => '=')
  }

  /** `s.replace(/from/g, to)` for a single character: every `from` becomes `to`. */
  function ReplaceAll(s: string, from: char, to: char): (r: string)
    ensures |r| == |s|
    ensures forall i :: 0 <= i < |s| ==> r[i] == (if s[i] == from then to else s[i])
  {
    if |s| == 0 then []
    else [if s[0] == from then to else s[0]] + ReplaceAll(s[1..], from, to)
  }

  /** A base64url character in the base64 alphabet: '-' is '+', '_' is '/', the rest stay. */
  function StandardChar(c: char): char
  {
    if c == '-' then '+' else if c == '_' then '/' else c
  }

  /** A base64 character in the base64url alphabet: '+' is '-', '/' is '_', the rest stay. */
  function UrlChar(c: char): char
  {
    if c == '+' then '-' else if c == '/' then '_' else c
  }

  /** The two `replace` calls of the key conversion: no '-' or '_' survives,
      the length is kept, and every other character is unchanged. */
  function ToStandardAlphabet(s: string): (r: string)
    ensures |r| == |s|
    ensures forall i :: 0 <= i < |s| ==> r[i] == StandardChar(s[i])
    ensures '-' !in r && '_' !in r
  {
    ReplaceAll(ReplaceAll(s, '-', '+'), '_', '/')
  }

  /** The reverse mapping, from the base64 alphabet to base64url. */
  function ToUrlAlphabet(s: string): (r: string)
    ensures |r| == |s|
    ensures forall i :: 0 <= i < |s| ==> r[i] == UrlChar(s[i])
    ensures '+' !in r && '/' !in r
  {
    ReplaceAll(ReplaceAll(s, '+', '-'), '/', '_')
  }

  /** The characters of section 5 of RFC 4648, with the '=' pad. */
  predicate IsUrlChar(c: char)
  {
    ('A' <= c <= 'Z') || ('a' <= c <= 'z') || ('0' <= c <= '9') || c == '-' || c == '_' || c == '='
  }

  /** The characters of section 4 of RFC 4648, with the '=' pad. */
  predicate IsStandardChar(c: char)
  {
    ('A' <= c <= 'Z') || ('a' <= c <= 'z') || ('0' <= c <= '9') || c == '+' || c == '/' || c == '='
  }

  /** The conversion maps base64url text onto base64 text and back again
      exactly: nothing is lost. */
  lemma AlphabetRoundTrip(s: string)
    requires forall i :: 0 <= i < |s| ==> IsUrlChar(s[i])
    ensures forall i :: 0 <= i < |s| ==> IsStandardChar(ToStandardAlphabet(s)[i])
    ensures ToUrlAlphabet(ToStandardAlphabet(s)) == s
  {
    var t := ToStandardAlphabet(s);
    var u := ToUrlAlphabet(t);
    forall i | 0 <= i < |s| ensures u[i] == s[i] {
      assert u[i] == UrlChar(StandardChar(s[i]));
    }
  }

  /** Base64 text converted to base64url and back is unchanged. */
  lemma StandardRoundTrip(t: string)
    requires forall i :: 0 <= i < |t| ==> IsStandardChar(t[i])
    ensures forall i :: 0 <= i < |t| ==> IsUrlChar(ToUrlAlphabet(t)[i])
    ensures ToStandardAlphabet(ToUrlAlphabet(t)) == t
  {
    var u := ToUrlAlphabet(t);
    var v := ToStandardAlphabet(u);
    forall i | 0 <= i < |t| ensures v[i] == t[i] {
      assert v[i] == StandardChar(UrlChar(t[i]));
    }
  }

  /** The text handed to `atob`: the key padded, then mapped to the base64 alphabet. */
  function Base64Text(key: string): (b: string)
    ensures |b| % 4 == 0
    ensures '-' !in b && '_' !in b
  {
    ToStandardAlphabet(Padded(key))
  }

  /** A base64url key becomes base64 text: the key's own characters mapped,
      then the '=' padding, in whole four-character groups. */
  lemma Base64TextShape(key: string)
    requires forall i :: 0 <= i < |key| ==> IsUrlChar(key[i])
    ensures var b := Base64Text(key);
            && |b| % 4 == 0 && |b| - |key| < 4
            && (forall i :: 0 <= i < |b| ==> IsStandardChar(b[i]))
            && b[..|key|] == ToStandardAlphabet(key)
            && (forall i :: |key| <= i < |b| ==> b[i] == '=')
  {
    var p := Padded(key);
    var b := Base64Text(key);
    forall i | 0 <= i < |b| ensures IsStandardChar(b[i]) {
      if i < |key| {
        assert p[i] == key[i];
      }
    }
  }

  /** A character code stored into a `Uint8Array` element, which keeps it modulo 256. */
  function ByteOf(c: char): (b: uint8)
    ensures c as int < 256 ==> b as int == c as int
  {
    ((c as int) % 256) as uint8
  }

  /** The copy loop: one byte per decoded character, each the character's code. */
  method CopyCharCodes(raw: string) returns (bytes: array<uint8>)
    ensures fresh(bytes)
    ensures bytes.Length == |raw|
    ensures forall i :: 0 <= i < |raw| ==> bytes[i] == ByteOf(raw[i])
    ensures (forall i :: 0 <= i < |raw| ==> raw[i] as int < 256) ==>
              forall i :: 0 <= i < |raw| ==> bytes[i] as int == raw[i] as int
  {
    bytes := new uint8[|raw|];
    var i := 0;
    while i < |raw|
      invariant 0 <= i <= |raw|
      invariant forall j :: 0 <= j < i ==> bytes[j] == ByteOf(raw[j])
    {
      bytes[i] := ByteOf(raw[i]);
      i := i + 1;
    }
  }

  /** `urlBase64ToUint8Array(key)`: no array when `atob` rejects the converted
      text, else one byte per decoded character, each its character code. */
  method UrlBase64ToBytes(key: string, atob: string -> Option<string>) returns (r: Option<array<uint8>>)
    ensures r.None? <==> atob(Base64Text(key)).None?
    ensures r.Some? ==> fresh(r.value)
    ensures r.Some? ==> r.value.Length == |atob(Base64Text(key)).value|
    ensures r.Some? ==> forall i :: 0 <= i < r.value.Length ==>
              r.value[i] == ByteOf(atob(Base64Text(key)).value[i])
  {
    match atob(Base64Text(key))
    case None =>
      r := None;
    case Some(raw) =>
      var bytes := CopyCharCodes(raw);
      r := Some(bytes);
  }
}
