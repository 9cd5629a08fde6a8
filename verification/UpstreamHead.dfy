/** Reading the upstream's headers. The header parser is a parameter: any function of
    octets whose verdict on a header stands when more octets follow. */
module UpstreamHead {
  import opened Bytes
  import opened FramingChoice

  datatype Head = Complete(resp: Response, size: nat) | Partial | Invalid

  type Parser = seq<byte> -> Head

  const MAX_BUFFER_SIZE: nat := 8192

  // A header is recognised from its last octet on, and never before it.
  ghost predicate Stable(parse: Parser) {
    && (forall s :: parse(s).Complete? ==> 0 < parse(s).size <= |s|)
    && (forall s, t :: parse(s).Complete? ==> parse(s + t) == parse(s))
    && (forall s, k :: parse(s).Complete? && 0 <= k <= |s| ==>
          parse(s[..k]) == if k < parse(s).size then Partial else parse(s))
  }

  // The octets parsed as far as the header goes, if it is one.
  predicate Recognised(h: Head, s: seq<byte>) {
    h.Complete? && 0 < h.size <= |s|
  }

  /** What the upstream says: its final response, after any interim ones, and the
      octets after that response's header. */
  function Heard(parse: Parser, s: seq<byte>): Option<(Response, seq<byte>)>
    decreases |s|
  {
    var h := parse(s);
    if !Recognised(h, s) then None
    else if Interim(h.resp) then Heard(parse, s[h.size..])
    else Some((h.resp, s[h.size..]))
  }

  // Each header fits into the buffer under every segmentation.
  ghost predicate HeadersFit(parse: Parser, s: seq<byte>)
    decreases |s|
  {
    var h := parse(s);
    Recognised(h, s) ==> h.size <= MAX_BUFFER_SIZE + 1 && (Interim(h.resp) ==> HeadersFit(parse, s[h.size..]))
  }

  predicate InterimFirst(parse: Parser, s: seq<byte>) {
    Recognised(parse(s), s) && Interim(parse(s).resp)
  }

  // The verdict on what has arrived is the verdict on all that will.
  lemma HeardSoFar(parse: Parser, got: seq<byte>, rest: seq<byte>)
    requires Stable(parse) && parse(got).Complete?
    ensures var h := parse(got);
      && parse(got + rest) == h && Recognised(h, got) && Recognised(h, got + rest)
      && (got + rest)[h.size..] == got[h.size..] + rest
      && Heard(parse, got + rest) ==
           if Interim(h.resp) then Heard(parse, got[h.size..] + rest) else Some((h.resp, got[h.size..] + rest))
  {
    assert (got + rest)[parse(got).size..] == got[parse(got).size..] + rest;
  }

  // A header that was incomplete before ends in what has arrived since.
  lemma HeardNow(parse: Parser, before: seq<byte>, got: seq<byte>)
    requires Stable(parse) && parse(got).Complete? && |before| <= |got| && before == got[..|before|]
    requires before == [] || parse(before).Partial?
    ensures parse(got).size > |before|
  {
  }

  // ---- two parsers ----

  // Any `size` octets are a header.
  function ByLength(size: nat, resp: Response): Parser {
    (s: seq<byte>) => if 0 < size <= |s| then Complete(resp, size) else Partial
  }

  // Every octet is a header, an interim one when it is the tag.
  function Tagged(tag: byte, interim: Response, final: Response): Parser {
    (s: seq<byte>) => if s == [] then Partial else Complete(if s[0] == tag then interim else final, 1)
  }

  lemma ParsersStable(size: nat, tag: byte, interim: Response, final: Response)
    ensures Stable(ByLength(size, final)) && Stable(Tagged(tag, interim, final))
  {
  }
}
