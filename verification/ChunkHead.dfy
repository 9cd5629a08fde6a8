/** The head of a chunk, `chunk-size [ chunk-ext ] CRLF` of section 7.1 of
    RFC 9112: a scanner standing for the parser the reader calls, and the
    upper-case hexadecimal size line the writer emits. */
module ChunkHead {
  import opened Bytes

  datatype Status = Complete(payloadIndex: nat, size: nat) | Partial | Invalid

  // What the scanner knows after some octets of a head.
  datatype Scan = Scan(digits: nat, size: nat, inSize: bool, inExt: bool)

  const FRESH: Scan := Scan(0, 0, true, false)
  const MAX_DIGITS: nat := 16

  function HexValue(b: byte): Option<nat> {
    if 48 <= b <= 57 then Some((b - 48) as nat)
    else if 97 <= b <= 102 then Some((b - 97) as nat + 10)
    else if 65 <= b <= 70 then Some((b - 65) as nat + 10)
    else None
  }

  // One octet other than CR; None when the head is malformed.
  function Accept(s: Scan, b: byte): Option<Scan> {
    if s.inSize && HexValue(b).Some? then
      if s.digits >= MAX_DIGITS then None
      else Some(s.(digits := s.digits + 1, size := 16 * s.size + HexValue(b).value))
    else if s.inExt then Some(s)
    else if b == TAB || b == SP then Some(s.(inSize := false))
    else if b == SEMICOLON then Some(s.(inSize := false, inExt := true))
    else None
  }

  function ScanHead(b: seq<byte>, i: nat, s: Scan): (r: Status)
    requires i <= |b|
    ensures r.Complete? ==> i + 2 <= r.payloadIndex <= |b|
    decreases |b| - i
  {
    if i == |b| then Partial
    else if b[i] == CR then
      if i + 1 == |b| then Partial
      else if b[i + 1] == LF then Complete(i + 2, s.size)
      else Invalid
    else
      match Accept(s, b[i])
      case None => Invalid
      case Some(next) => ScanHead(b, i + 1, next)
  }

  function ParseHead(b: seq<byte>): (r: Status)
    ensures r.Complete? ==> 2 <= r.payloadIndex <= |b|
  {
    ScanHead(b, 0, FRESH)
  }

  lemma {:induction false} ScanStable(b: seq<byte>, c: seq<byte>, i: nat, s: Scan)
    requires i <= |b| && !ScanHead(b, i, s).Partial?
    ensures ScanHead(b + c, i, s) == ScanHead(b, i, s)
    decreases |b| - i
  {
    assert (b + c)[i] == b[i];
    if b[i] == CR {
      assert (b + c)[i + 1] == b[i + 1];
    } else if Accept(s, b[i]).Some? {
      ScanStable(b, c, i + 1, Accept(s, b[i]).value);
    }
  }

  /** A verdict other than Partial never changes when more octets arrive. */
  lemma HeadStable(b: seq<byte>, c: seq<byte>)
    requires !ParseHead(b).Partial?
    ensures ParseHead(b + c) == ParseHead(b)
  {
    ScanStable(b, c, 0, FRESH);
  }

  /** A complete head is recognised exactly when its last octet is in hand:
      every shorter prefix is still Partial, every longer one agrees. */
  lemma HeadCut(b: seq<byte>, k: nat)
    requires k <= |b| && ParseHead(b).Complete?
    ensures k < ParseHead(b).payloadIndex ==> ParseHead(b[..k]) == Partial
    ensures k >= ParseHead(b).payloadIndex ==> ParseHead(b[..k]) == ParseHead(b)
  {
    assert b[..k] + b[k..] == b;
    if !ParseHead(b[..k]).Partial? {
      HeadStable(b[..k], b[k..]);
    } else if k >= ParseHead(b).payloadIndex {
      ScanReached(b, k, 0, FRESH);
    }
  }

  lemma {:induction false} ScanReached(b: seq<byte>, k: nat, i: nat, s: Scan)
    requires i <= k <= |b| && ScanHead(b, i, s).Complete? && ScanHead(b, i, s).payloadIndex <= k
    ensures ScanHead(b[..k], i, s) == ScanHead(b, i, s)
    decreases |b| - i
  {
    if b[i] != CR {
      ScanReached(b, k, i + 1, Accept(s, b[i]).value);
    }
  }

  // ---- the size line of the writer ----

  function HexDigit(d: nat): (b: byte)
    requires d < 16
    ensures HexValue(b) == Some(d) && b != CR
  {
    if d < 10 then (48 + d) as byte else (55 + d) as byte
  }

  function HexUpper(n: nat): (s: seq<byte>)
    ensures s != []
  {
    if n < 16 then [HexDigit(n)] else HexUpper(n / 16) + [HexDigit(n % 16)]
  }

  function Pow16(k: nat): nat {
    if k == 0 then 1 else 16 * Pow16(k - 1)
  }

  lemma {:induction false} HexLength(n: nat, k: nat)
    requires 1 <= k && n < Pow16(k)
    ensures |HexUpper(n)| <= k
  {
    if n >= 16 {
      HexLength(n / 16, k - 1);
    }
  }

  lemma UsizeDigits(n: nat)
    requires n < USIZE_LIMIT
    ensures |HexUpper(n)| <= MAX_DIGITS
  {
    assert Pow16(4) == 0x1_0000;
    assert Pow16(8) == 0x1_0000 * Pow16(4);
    assert Pow16(12) == 0x1_0000 * Pow16(8);
    assert Pow16(16) == 0x1_0000 * Pow16(12);
    HexLength(n, 16);
  }

  lemma {:induction false} ScanHex(n: nat, t: seq<byte>)
    requires |HexUpper(n)| <= MAX_DIGITS
    ensures ParseHead(HexUpper(n) + t)
         == ScanHead(HexUpper(n) + t, |HexUpper(n)|, Scan(|HexUpper(n)|, n, true, false))
  {
    var (b, d, k) := (HexUpper(n) + t, HexDigit(n % 16), |HexUpper(n)| - 1);
    assert b[k] == d;
    ScanDigit(b, k, n / 16, n % 16);
    if n >= 16 {
      ScanHex(n / 16, [d] + t);
      assert b == HexUpper(n / 16) + ([d] + t);
    }
  }

  lemma ScanDigit(b: seq<byte>, k: nat, size: nat, d: nat)
    requires k < |b| && k < MAX_DIGITS && d < 16 && b[k] == HexDigit(d)
    ensures ScanHead(b, k, Scan(k, size, true, false)) == ScanHead(b, k + 1, Scan(k + 1, 16 * size + d, true, false))
  {
  }

  /** The size line written for n octets is read back as n, whatever follows. */
  lemma SizeLineRoundTrip(n: nat, t: seq<byte>)
    requires n < USIZE_LIMIT
    ensures ParseHead(HexUpper(n) + CRLF + t) == Complete(|HexUpper(n)| + 2, n)
  {
    UsizeDigits(n);
    assert HexUpper(n) + CRLF + t == HexUpper(n) + (CRLF + t);
    ScanHex(n, CRLF + t);
  }
}
