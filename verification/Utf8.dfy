/** `std::str::from_utf8` and `str::as_bytes`: the well-formed byte sequences of Table 3-7 of the
    Unicode Standard, over Dafny's `char`, which is a Unicode scalar value. */
module Utf8 {
  import opened Prelude

  function EncodeChar(c: char): (b: bytes)
    ensures 1 <= |b| <= 4
    ensures c as int < 0x80 <==> |b| == 1
    ensures |b| == 1 ==> b[0] as int == c as int
    ensures |b| > 1 ==> forall k :: 0 <= k < |b| ==> b[k] >= 0x80
  {
    var n := c as int;
    if n < 0x80 then [n as byte]
    else if n < 0x800 then [(0xC0 + n / 64) as byte, Continuation(n)]
    else if n < 0x1_0000 then [(0xE0 + n / 64 / 64) as byte, Continuation(n / 64), Continuation(n)]
    else [(0xF0 + n / 64 / 64 / 64) as byte, Continuation(n / 64 / 64), Continuation(n / 64), Continuation(n)]
  }

  function Continuation(n: nat): (b: byte)
    ensures 0x80 <= b < 0xC0
  {
    (0x80 + n % 64) as byte
  }

  function Encode(t: string): (b: bytes)
    ensures |b| >= |t|
  {
    if t == "" then [] else EncodeChar(t[0]) + Encode(t[1..])
  }

  predicate IsContinuation(b: byte) {
    0x80 <= b < 0xC0
  }

  /** Second bytes that the lead byte allows: no overlong forms, no surrogates, nothing above
      U+10FFFF. */
  predicate SecondByteOk(lead: byte, second: byte) {
    && IsContinuation(second)
    && (lead == 0xE0 ==> second >= 0xA0)
    && (lead == 0xED ==> second < 0xA0)
    && (lead == 0xF0 ==> second >= 0x90)
    && (lead == 0xF4 ==> second < 0x90)
  }

  /** Length of the well-formed character at the front, or 0 when there is none. */
  function LeadLength(b: bytes): (n: nat)
    ensures n <= 4 && n <= |b|
  {
    if |b| == 0 then 0
    else if b[0] < 0x80 then 1
    else if |b| >= 2 && 0xC2 <= b[0] < 0xE0 && IsContinuation(b[1]) then 2
    else if |b| >= 3 && 0xE0 <= b[0] < 0xF0 && SecondByteOk(b[0], b[1]) && IsContinuation(b[2]) then 3
    else if |b| >= 4 && 0xF0 <= b[0] < 0xF5 && SecondByteOk(b[0], b[1])
      && IsContinuation(b[2]) && IsContinuation(b[3]) then 4
    else 0
  }

  function LeadChar(b: bytes): (c: char)
    requires LeadLength(b) > 0
  {
    var n := LeadLength(b);
    if n == 1 then b[0] as int as char
    else if n == 2 then ((b[0] as int - 0xC0) * 64 + Low(b[1])) as char
    else if n == 3 then ((b[0] as int - 0xE0) * 4096 + Low(b[1]) * 64 + Low(b[2])) as char
    else ((b[0] as int - 0xF0) * 0x4_0000 + Low(b[1]) * 4096 + Low(b[2]) * 64 + Low(b[3])) as char
  }

  function Low(b: byte): int {
    b as int - 0x80
  }

  function Decode(b: bytes): Option<string>
    decreases |b|
  {
    if b == [] then Some("")
    else if LeadLength(b) == 0 then None
    else
      var rest := Decode(b[LeadLength(b)..]);
      if rest.None? then None else Some([LeadChar(b)] + rest.value)
  }

  /** The bits of an encoded character, in the shortest form that holds them (Table 3-6 of the Unicode
      Standard). */
  lemma EncodedBits(c: char)
    ensures var b, n := EncodeChar(c), c as int;
      match |b|
      case 1 => n < 0x80 && b[0] as int == n
      case 2 => 0x80 <= n < 0x800 && 0xC0 <= b[0] && n == (b[0] as int - 0xC0) * 64 + Low(b[1])
      case 3 => 0x800 <= n < 0x1_0000 && 0xE0 <= b[0] && n == (b[0] as int - 0xE0) * 4096 + Low(b[1]) * 64 + Low(b[2])
      case _ =>
        && 0x1_0000 <= n && 0xF0 <= b[0]
        && n == (b[0] as int - 0xF0) * 0x4_0000 + Low(b[1]) * 4096 + Low(b[2]) * 64 + Low(b[3])
    ensures forall k :: 1 <= k < |EncodeChar(c)| ==> 0x80 <= EncodeChar(c)[k] < 0xC0
  {
    LeadOfEncodedChar(c);
  }

  lemma LeadOfEncodedChar(c: char)
    ensures LeadLength(EncodeChar(c)) == |EncodeChar(c)|
    ensures LeadChar(EncodeChar(c)) == c
  {
    var n := c as int;
    if n < 0x80 {
    } else if n < 0x800 {
      assert n == n / 64 * 64 + n % 64;
    } else if n < 0x1_0000 {
      assert n == n / 64 / 64 * 4096 + n / 64 % 64 * 64 + n % 64;
    } else {
      assert n == n / 64 / 64 / 64 * 0x4_0000 + n / 64 / 64 % 64 * 4096 + n / 64 % 64 * 64 + n % 64;
    }
  }

  /** Decoding one character looks at nothing behind it. */
  lemma LeadLocal(b: bytes, tail: bytes)
    requires LeadLength(b) == |b| > 0
    ensures LeadLength(b + tail) == |b| && LeadChar(b + tail) == LeadChar(b)
  {
    var s := b + tail;
    assert s[0] == b[0];
    assert |b| > 1 ==> s[1] == b[1];
    assert |b| > 2 ==> s[2] == b[2];
    assert |b| > 3 ==> s[3] == b[3];
  }

  lemma EncodedLead(b: bytes)
    requires LeadLength(b) > 0
    ensures EncodeChar(LeadChar(b)) == b[..LeadLength(b)]
  {
    var n := LeadLength(b);
    var c := LeadChar(b) as int;
    if n == 1 {
    } else if n == 2 {
      assert c / 64 == b[0] as int - 0xC0 && c % 64 == Low(b[1]);
    } else if n == 3 {
      assert c / 64 == (b[0] as int - 0xE0) * 64 + Low(b[1]) && c % 64 == Low(b[2]);
      assert c / 64 / 64 == b[0] as int - 0xE0 && c / 64 % 64 == Low(b[1]);
    } else {
      assert c / 64 == (b[0] as int - 0xF0) * 4096 + Low(b[1]) * 64 + Low(b[2]) && c % 64 == Low(b[3]);
      assert c / 64 / 64 == (b[0] as int - 0xF0) * 64 + Low(b[1]) && c / 64 % 64 == Low(b[2]);
      assert c / 64 / 64 / 64 == b[0] as int - 0xF0 && c / 64 / 64 % 64 == Low(b[1]);
    }
  }

  /** Text survives encoding and decoding. */
  lemma {:induction false} DecodeEncode(t: string)
    ensures Decode(Encode(t)) == Some(t)
  {
    if t != "" {
      var first, rest := EncodeChar(t[0]), Encode(t[1..]);
      LeadOfEncodedChar(t[0]);
      LeadLocal(first, rest);
      assert (first + rest)[|first|..] == rest;
      DecodeEncode(t[1..]);
      assert [t[0]] + t[1..] == t;
    }
  }

  /** Decoding accepts a byte string exactly when it is the encoding of the text it returns. */
  lemma {:induction false} DecodeExactly(b: bytes, t: string)
    ensures Decode(b) == Some(t) <==> b == Encode(t)
    decreases |b|
  {
    DecodeEncode(t);
    if Decode(b) == Some(t) && b != [] {
      EncodedLead(b);
      DecodeExactly(b[LeadLength(b)..], t[1..]);
    }
  }

  /** Decoding fails exactly on what no text encodes to. */
  lemma NoTextExactly(b: bytes)
    ensures Decode(b) == None <==> forall t :: Encode(t) != b
  {
    if Decode(b).Some? {
      DecodeExactly(b, Decode(b).value);
    }
    forall t | Encode(t) == b
      ensures Decode(b) == Some(t)
    {
      DecodeExactly(b, t);
    }
  }

  lemma {:induction false} EncodeConcat(s: string, t: string)
    ensures Encode(s + t) == Encode(s) + Encode(t)
  {
    if s == "" {
      assert s + t == t;
    } else {
      assert (s + t)[1..] == s[1..] + t;
      EncodeConcat(s[1..], t);
    }
  }
}
