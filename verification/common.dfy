/** Small shared vocabulary: optional values and UTF-8 bytes. */
module Common {

  /** An optional value; `None` plays the part of Swift's `nil`. */
  datatype Option<+T> = None | Some(value: T)

  /** One UTF-8 code unit. */
  type Byte = b: int | 0 <= b < 256

  /** Source text as a sequence of UTF-8 code units. */
  type Bytes = seq<Byte>

  /** `s` without its first `k` elements. */
  function DropFirst<T>(s: seq<T>, k: nat): seq<T>
    requires k <= |s|
  {
    s[k..]
  }

  /** Dropping the front of `a` from `a + b`. */
  lemma PrefixOfConcat<T>(a: seq<T>, b: seq<T>, k: nat)
    requires k <= |a|
    ensures DropFirst(a + b, k) == DropFirst(a, k) + b
  {
  }

  /** `s` without its last `k` elements. */
  function DropLast<T>(s: seq<T>, k: nat): seq<T>
    requires k <= |s|
  {
    s[..|s| - k]
  }

  /** Dropping the end of `b` from `a + b`. */
  lemma SuffixOfConcat<T>(a: seq<T>, b: seq<T>, k: nat)
    requires k <= |b|
    ensures DropLast(a + b, k) == a + DropLast(b, k)
  {
  }

  /** When `w` without its first `l` elements is `a + b`, it is `b` without `a` as well. */
  lemma SplitAfter<T>(w: seq<T>, l: nat, a: seq<T>, b: seq<T>)
    requires l <= |w| && DropFirst(w, l) == a + b
    ensures l + |a| <= |w| && DropFirst(w, l + |a|) == b
  {
    assert DropFirst(w, l)[|a|..] == DropFirst(w, l + |a|);
  }

  /** When `w` without its last `t` elements is `a + b`, it is `a` without `b` as well. */
  lemma SplitBefore<T>(w: seq<T>, t: nat, a: seq<T>, b: seq<T>)
    requires t <= |w| && DropLast(w, t) == a + b
    ensures t + |b| <= |w| && DropLast(w, t + |b|) == a
  {
    assert DropLast(w, t)[..|a|] == DropLast(w, t + |b|);
  }

  /** Dropping the first `l` elements splits at any later position `e`. */
  lemma DropSplit<T>(w: seq<T>, l: nat, e: nat)
    requires l <= e <= |w|
    ensures w[l..] == w[l..e] + w[e..]
  {
  }

  /** Dropping all of `a` from `a + b` leaves `b`. */
  lemma DropFront<T>(a: seq<T>, b: seq<T>)
    ensures (a + b)[|a|..] == b
  {
  }

  /** Dropping all of `b` from the end of `a + b` leaves `a`. */
  lemma DropBack<T>(a: seq<T>, b: seq<T>)
    ensures DropLast(a + b, |b|) == a
  {
  }

  /** Taking the first `e` elements splits at any earlier position `l`. */
  lemma TakeSplit<T>(w: seq<T>, l: nat, e: nat)
    requires l <= e <= |w|
    ensures w[..e] == w[..l] + w[l..e]
  {
  }

  lemma SeqAssoc<T>(a: seq<T>, b: seq<T>, c: seq<T>)
    ensures a + b + c == a + (b + c)
  {
  }
}
