/** The two links `create_url` returns for a new key: the short link
    `scheme://netloc/key` and the administrative link `scheme://netloc/admin/key`.
    Only the shape of the strings is modelled; which endpoint serves them is not. */
module Links {
  import opened Keys

  /** `f"{scheme}://{netloc}/{key}"` */
  function FullUrl(scheme: string, netloc: string, key: string): (u: string)
    ensures |u| == |scheme| + |netloc| + 4 + |key|
    ensures u[..|scheme| + 3] == scheme + "://" && u[|scheme| + 3..|scheme| + 3 + |netloc|] == netloc
    ensures u[|u| - |key| - 1] == '/' && u[|u| - |key|..] == key
  {
    scheme + "://" + netloc + "/" + key
  }

  /** `f"{scheme}://{netloc}/admin/{key}"` */
  function AdminUrl(scheme: string, netloc: string, key: string): (u: string)
    ensures |u| == |scheme| + |netloc| + 10 + |key|
    ensures u[..|scheme| + 3] == scheme + "://" && u[|scheme| + 3..|scheme| + 3 + |netloc|] == netloc
    ensures u[|u| - |key| - 7..|u| - |key|] == "/admin/" && u[|u| - |key|..] == key
  {
    scheme + "://" + netloc + "/admin/" + key
  }

  /** Where the last segment of `s[..j]` begins: just after the last `/`
      before position `j`, or at 0 when there is none. */
  function SegmentStart(s: string, j: nat): (i: nat)
    requires j <= |s|
    ensures i <= j && (i > 0 ==> s[i - 1] == '/')
    ensures forall m :: i <= m < j ==> s[m] != '/'
    decreases j
  {
    if j == 0 || s[j - 1] == '/' then j else SegmentStart(s, j - 1)
  }

  /** The text after the last `/` of `s` (all of `s` when it has no `/`):
      a suffix of `s` without `/` that is either all of `s` or preceded by `/`. */
  function LastSegment(s: string): (r: string)
    ensures '/' !in r
    ensures |r| <= |s| && r == s[|s| - |r|..]
    ensures |r| < |s| ==> s[|s| - |r| - 1] == '/'
  {
    s[SegmentStart(s, |s|)..]
  }

  /** Whatever precedes it, a `/`-free text after a `/` is the last segment. */
  lemma LastSegmentAfterSlash(prefix: string, seg: string)
    requires '/' !in seg
    ensures LastSegment(prefix + "/" + seg) == seg
  {
    var s := prefix + "/" + seg;
    assert s[|s| - |seg| - 1] == '/';
  }

  /** The key is exactly the text after the last `/` of both links, because a
      valid key has no `/` of its own. */
  lemma KeyIsLastSegment(scheme: string, netloc: string, key: string)
    requires ValidKey(key)
    ensures LastSegment(FullUrl(scheme, netloc, key)) == key
    ensures LastSegment(AdminUrl(scheme, netloc, key)) == key
  {
    ValidKeyHasNoSlash(key);
    assert FullUrl(scheme, netloc, key) == (scheme + "://" + netloc) + "/" + key;
    LastSegmentAfterSlash(scheme + "://" + netloc, key);
    assert AdminUrl(scheme, netloc, key) == (scheme + "://" + netloc + "/admin") + "/" + key;
    LastSegmentAfterSlash(scheme + "://" + netloc + "/admin", key);
  }
}
