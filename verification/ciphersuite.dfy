/** The hash functions of the FROST(Ed25519, SHA-512) ciphersuite (section 6.1
    of RFC 9591).  SHA-512 itself is a parameter `sha`, a function on byte
    strings the model does not open; what is modelled is the exact byte string
    each of H1..H5 feeds to it.  H1, H3, H4 and H5 hash the context string,
    then a tag, then the message; H2 hashes the message alone. */
module Ciphersuite {
  import opened Wrappers
  import opened Bytes

  /** SHA-512 as an uninterpreted function on byte strings. */
  type Hash = seq<Byte> -> seq<Byte>

  /** `CONTEXT_STRING`: the bytes of "FROST-ED25519-SHA512-v1". */
  const CONTEXT_STRING: seq<Byte> := Ascii("FROST-ED25519-SHA512-v1")

  /** The tags of the domain-separated hashes. */
  datatype Tag = Rho | Nonce | Msg | Com

  /** The ASCII bytes of each tag; their first bytes 'r', 'n', 'm' and 'c'
      differ. */
  function TagBytes(t: Tag): (r: seq<Byte>)
    ensures |r| >= 3
    ensures t == Rho ==> r == [0x72, 0x68, 0x6f]
    ensures t == Nonce ==> r == [0x6e, 0x6f, 0x6e, 0x63, 0x65]
    ensures t == Msg ==> r == [0x6d, 0x73, 0x67]
    ensures t == Com ==> r == [0x63, 0x6f, 0x6d]
  {
    match t
    case Rho => Ascii("rho")
    case Nonce => Ascii("nonce")
    case Msg => Ascii("msg")
    case Com => Ascii("com")
  }

  /** The string a tagged hash feeds to SHA-512. */
  function Tagged(t: Tag, m: seq<Byte>): seq<Byte> {
    CONTEXT_STRING + TagBytes(t) + m
  }

  /** H1: SHA-512 of the context string, "rho", then m. */
  function H1(sha: Hash, m: seq<Byte>): (h: seq<Byte>)
    ensures h == sha(CONTEXT_STRING + [0x72, 0x68, 0x6f] + m)
  {
    sha(Tagged(Rho, m))
  }

  /** H2: SHA-512 of m alone, with neither the context string nor a tag. */
  function H2(sha: Hash, m: seq<Byte>): (h: seq<Byte>)
    ensures h == sha(m)
  {
    sha(m)
  }

  /** H3: SHA-512 of the context string, "nonce", then m. */
  function H3(sha: Hash, m: seq<Byte>): (h: seq<Byte>)
    ensures h == sha(CONTEXT_STRING + [0x6e, 0x6f, 0x6e, 0x63, 0x65] + m)
  {
    sha(Tagged(Nonce, m))
  }

  /** H4: SHA-512 of the context string, "msg", then m. */
  function H4(sha: Hash, m: seq<Byte>): (h: seq<Byte>)
    ensures h == sha(CONTEXT_STRING + [0x6d, 0x73, 0x67] + m)
  {
    sha(Tagged(Msg, m))
  }

  /** H5: SHA-512 of the context string, "com", then m. */
  function H5(sha: Hash, m: seq<Byte>): (h: seq<Byte>)
    ensures h == sha(CONTEXT_STRING + [0x63, 0x6f, 0x6d] + m)
  {
    sha(Tagged(Com, m))
  }

  /** The context string spelled out byte by byte. */
  lemma ContextBytes()
    ensures |CONTEXT_STRING| == 23
    ensures CONTEXT_STRING == [0x46, 0x52, 0x4f, 0x53, 0x54, 0x2d, 0x45, 0x44, 0x32, 0x35, 0x35, 0x31,
                               0x39, 0x2d, 0x53, 0x48, 0x41, 0x35, 0x31, 0x32, 0x2d, 0x76, 0x31]
  {
  }

  /** Recovers the tag and the message from a tagged preimage; the inverse of
      `Tagged`.  The tags differ in their first byte, which decides the tag. */
  function ParseTagged(p: seq<Byte>): (r: Option<(Tag, seq<Byte>)>)
    ensures r.Some? ==> Tagged(r.value.0, r.value.1) == p
  {
    var n := |CONTEXT_STRING|;
    if |p| <= n || p[..n] != CONTEXT_STRING then None
    else
      var t := if p[n] == 'r' as int then Rho
               else if p[n] == 'n' as int then Nonce
               else if p[n] == 'm' as int then Msg
               else Com;
      var k := n + |TagBytes(t)|;
      if |p| < k || p[n..k] != TagBytes(t) then None
      else
        assert p == CONTEXT_STRING + TagBytes(t) + p[k..];
        Some((t, p[k..]))
  }

  /** Parsing a tagged preimage gives back its tag and message. */
  lemma ParseTaggedRoundTrip(t: Tag, m: seq<Byte>)
    ensures ParseTagged(Tagged(t, m)) == Some((t, m))
  {
    var p, n := Tagged(t, m), |CONTEXT_STRING|;
    assert p[..n] == CONTEXT_STRING;
    assert p[n] == TagBytes(t)[0];
    var k := n + |TagBytes(t)|;
    assert p[n..k] == TagBytes(t);
    assert p[k..] == m;
  }

  /** Domain separation: preimages of two tagged hashes coincide only when
      both the tags and the messages do. */
  lemma TaggedInjective(t1: Tag, m1: seq<Byte>, t2: Tag, m2: seq<Byte>)
    requires Tagged(t1, m1) == Tagged(t2, m2)
    ensures t1 == t2 && m1 == m2
  {
    ParseTaggedRoundTrip(t1, m1);
    ParseTaggedRoundTrip(t2, m2);
  }

  /** H2 has no context string or tag, so it collides with H1 (and likewise
      with H3, H4 and H5) on the tagged preimage: domain separation does not
      cover it. */
  lemma H2NotSeparated(sha: Hash, m: seq<Byte>)
    ensures H2(sha, Tagged(Rho, m)) == H1(sha, m)
    ensures H2(sha, Tagged(Nonce, m)) == H3(sha, m)
    ensures H2(sha, Tagged(Msg, m)) == H4(sha, m)
    ensures H2(sha, Tagged(Com, m)) == H5(sha, m)
  {
  }
}
