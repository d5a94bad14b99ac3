/**
 * The S/MIME kind of a message (section 3.9 of RFC 5751, "Identifying an
 * S/MIME Message"): enveloped or signed data, a detached signature, or an
 * opaque octet stream.
 */
module OutlookSmime {
  import opened Wrappers
  import opened JavaLang

  datatype Smime =
    | ApplicationSmime(smimeMime: Option<string>, smimeType: Option<string>, smimeName: Option<string>)
    | MultipartSigned(smimeMime: Option<string>, smimeProtocol: Option<string>, smimeMicalg: Option<string>)
    | ApplicationOctetStream

  /**
   * `equals`: the first two kinds compare field by field within their own
   * class; the octet-stream kind keeps `Object.equals`, so two of them are
   * equal only when they are the same object (`sameObject`). The same object
   * is always equal to itself.
   */
  predicate Equals(a: Smime, b: Smime, sameObject: bool)
    requires sameObject ==> a == b
  {
    sameObject
    || match a
       case ApplicationSmime(_, _, _) => b.ApplicationSmime? && a == b
       case MultipartSigned(_, _, _) => b.MultipartSigned? && a == b
       case ApplicationOctetStream => false
  }

  /** Equality is reflexive on one object and symmetric. */
  lemma EqualsSymmetric(a: Smime, b: Smime, sameObject: bool)
    requires sameObject ==> a == b
    ensures Equals(a, a, true)
    ensures Equals(a, b, sameObject) <==> Equals(b, a, sameObject)
  {
  }

  /** Two distinct octet-stream objects are never equal, whereas the other kinds are equal by value. */
  lemma EqualsByValue(a: Smime, b: Smime)
    ensures Equals(a, b, false) <==> a == b && !a.ApplicationOctetStream?
  {
  }

  /**
   * `hashCode`: `Objects.hash` of the three fields; the octet-stream kind
   * keeps the identity hash, which is given.
   */
  function HashCode(s: Smime, identityHash: int): (h: int)
    requires IsInt32(identityHash)
    ensures IsInt32(h)
    ensures s.ApplicationOctetStream? ==> h == identityHash
  {
    match s
    case ApplicationSmime(m, t, n) => ObjectsHash([m, t, n])
    case MultipartSigned(m, p, a) => ObjectsHash([m, p, a])
    case ApplicationOctetStream => identityHash
  }

  /** Equal values hash alike (the same object has one identity hash). */
  lemma EqualsHashCode(a: Smime, b: Smime, sameObject: bool, ha: int, hb: int)
    requires sameObject ==> a == b && ha == hb
    requires IsInt32(ha) && IsInt32(hb)
    requires Equals(a, b, sameObject)
    ensures HashCode(a, ha) == HashCode(b, hb)
  {
  }

  /** `toString` of the two kinds that override it: the class name and the three fields, quoted. */
  function ToString(s: Smime): (r: Option<string>)
    ensures s.ApplicationOctetStream? <==> r.None?
    ensures s.ApplicationSmime? ==> r.Some? && StartsWith(r.value, "OutlookSmimeApplicationSmime{smimeMime='" + ValueOf(s.smimeMime) + "'")
    ensures s.MultipartSigned? ==> r.Some? && StartsWith(r.value, "OutlookSmimeMultipartSigned{smimeMime='" + ValueOf(s.smimeMime) + "'")
    ensures r.Some? ==> EndsWith(r.value, "'}")
  {
    match s
    case ApplicationSmime(m, t, n) =>
      var head := "OutlookSmimeApplicationSmime{smimeMime='" + ValueOf(m) + "'";
      var tail := ", smimeType='" + ValueOf(t) + "'" + ", smimeName='" + ValueOf(n) + "'}";
      assert (head + tail)[..|head|] == head;
      assert (head + tail)[|head + tail| - 2..] == "'}";
      Some(head + tail)
    case MultipartSigned(m, p, a) =>
      var head := "OutlookSmimeMultipartSigned{smimeMime='" + ValueOf(m) + "'";
      var tail := ", smimeProtocol='" + ValueOf(p) + "'" + ", smimeMicalg='" + ValueOf(a) + "'}";
      assert (head + tail)[..|head|] == head;
      assert (head + tail)[|head + tail| - 2..] == "'}";
      Some(head + tail)
    case ApplicationOctetStream => None
  }
}
