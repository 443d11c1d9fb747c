/** The signed actor cookie (crates/server/src/ui.rs), on the UTF-8 bytes of its text. */
module Cookie {
  import opened ConstantTime

  type Bytes = seq<Byte>

  const DOT: Byte := 46

  datatype Option<+T> = None | Some(value: T)

  /** `0` to `9` and `a` to `f`. */
  predicate HexDigit(b: Byte) {
    48 <= b <= 57 || 97 <= b <= 102
  }

  /** The keyed tag, in hex: 32 digits, so none of them is a dot. What it computes is not modelled. */
  ghost predicate HexTag(tag: Bytes -> Bytes) {
    forall h :: |tag(h)| == 32 && forall b | b in tag(h) :: HexDigit(b)
  }

  lemma NoDotInHex(digits: Bytes)
    requires forall b | b in digits :: HexDigit(b)
    ensures 46 !in digits
  { }

  function Sign(tag: Bytes -> Bytes, handle: Bytes): (cookie: Bytes)
    ensures cookie == handle + [46] + tag(handle)
  {
    handle + [DOT] + tag(handle)
  }

  /** `rsplit_once('.')` */
  function RSplitOnce(s: Bytes): (r: Option<(Bytes, Bytes)>)
    ensures r.Some? ==> s == r.value.0 + [46] + r.value.1 && 46 !in r.value.1
    ensures r.None? <==> 46 !in s
  {
    if s == [] then None
    else
      var n := |s| - 1;
      assert s == s[..n] + [s[n]];
      if s[n] == DOT then Some((s[..n], []))
      else
        match RSplitOnce(s[..n])
        case None => None
        case Some((head, tail)) => Some((head, tail + [s[n]]))
  }

  /** Only the last dot splits, so a handle may hold dots. */
  lemma SplitUnique(h: Bytes, t: Bytes, h': Bytes, t': Bytes)
    requires h + [DOT] + t == h' + [DOT] + t' && DOT !in t && DOT !in t'
    ensures h == h' && t == t'
  {
    var s := h + [DOT] + t;
    LastDot(h, t);
    LastDot(h', t');
    assert |h| == |h'|;
    assert h == s[..|h|] && h' == s[..|h'|] && t == s[|h| + 1..] && t' == s[|h'| + 1..];
  }

  lemma LastDot(h: Bytes, t: Bytes)
    requires DOT !in t
    ensures var s := h + [DOT] + t; s[|h|] == DOT && forall j | |h| < j < |s| :: s[j] != DOT
  {
    var s := h + [DOT] + t;
    forall j | |h| < j < |s| ensures s[j] != DOT { assert s[j] == t[j - |h| - 1]; }
  }

  /** A cookie verifies as exactly the non-empty handle it is the signature of: handle, dot (byte 46), tag. */
  method Verify(tag: Bytes -> Bytes, cookie: Bytes) returns (r: Option<Bytes>)
    requires HexTag(tag)
    ensures forall h :: r == Some(h) <==> h != [] && cookie == h + [46] + tag(h)
  {
    var split := RSplitOnce(cookie);
    SignedSplit(tag, cookie);
    if split.None? { return None; }
    var (handle, given) := split.value;
    if handle == [] || |given| != 32 { return None; }
    var expected := RSplitOnce(Sign(tag, handle));
    SignedSplit(tag, Sign(tag, handle));
    if expected.None? { return None; }
    var same := UiEq(given, expected.value.1);
    if !same { return None; }
    r := Some(handle);
  }

  lemma SignedSplit(tag: Bytes -> Bytes, cookie: Bytes)
    requires HexTag(tag)
    ensures forall h :: cookie == Sign(tag, h) ==> RSplitOnce(cookie) == Some((h, tag(h)))
  {
    forall h | cookie == Sign(tag, h) ensures RSplitOnce(cookie) == Some((h, tag(h))) {
      NoDotInHex(tag(h));
      assert cookie[|h|] == DOT;
      var (h', t') := RSplitOnce(cookie).value;
      SplitUnique(h, tag(h), h', t');
    }
  }
}
