/** Metric identity: a name plus a sequence of tags. Equality, ordering and
    hashing all look at the name and then the tags IN THE ORDER GIVEN; nothing
    sorts or deduplicates tags, so the same tags in another order form a
    different key. */
module Keys {

  /** Rust's `std::cmp::Ordering`. */
  datatype Ordering = Less | Equal | Greater {

    function Reverse(): Ordering {
      match this
      case Less => Greater
      case Equal => Equal
      case Greater => Less
    }

    /** `Ordering::then`: the first difference decides. */
    function Then(other: Ordering): Ordering {
      if this == Equal then other else this
    }
  }

  /** A comparison that is a total order consistent with equality:
      `cmp == Equal` iff equal, antisymmetric, transitive. */
  ghost predicate IsTotalOrder<T(!new)>(cmp: (T, T) -> Ordering) {
    && (forall x, y :: cmp(x, y) == Equal <==> x == y)
    && (forall x, y :: cmp(y, x) == cmp(x, y).Reverse())
    && (forall x, y, z :: cmp(x, y) == Less && cmp(y, z) == Less ==> cmp(x, z) == Less)
  }

  /** Lexicographic comparison of slices, as `Ord for [T]`: element by element,
      and a proper prefix is smaller. */
  function LexCompare<T>(a: seq<T>, b: seq<T>, cmp: (T, T) -> Ordering): Ordering
    decreases |a|
  {
    if a == [] then (if b == [] then Equal else Less)
    else if b == [] then Greater
    else cmp(a[0], b[0]).Then(LexCompare(a[1..], b[1..], cmp))
  }

  /** Characters compare by code point; for UTF-8 strings this is the byte
      order Rust's `str` comparison uses. */
  function CompareChar(a: char, b: char): Ordering {
    if a < b then Less else if a == b then Equal else Greater
  }

  function CompareString(a: string, b: string): Ordering {
    LexCompare(a, b, CompareChar)
  }

  /** A tag: `#[derive(PartialEq, Eq, Hash, PartialOrd, Ord)]` over (key, value). */
  datatype Tag = Tag(key: string, value: string)

  /** Derived `Ord for Tag`: by key, then by value. It reports Equal exactly
      for equal tags, as the derived `PartialEq` requires. */
  function CompareTag(a: Tag, b: Tag): (r: Ordering)
    ensures r == Equal <==> a == b
  {
    StringOrderTotal();
    CompareString(a.key, b.key).Then(CompareString(a.value, b.value))
  }

  datatype Key = Key(name: string, tags: seq<Tag>) {

    /** `Key::key()`: the name. */
    function KeyName(): (r: string)
      ensures r == name
    {
      name
    }

    /** `Key::tags()`: the tag slice, unchanged. */
    function Tags(): (r: seq<Tag>)
      ensures r == tags
    {
      tags
    }
  }

  /** `Key::from_name`: the name with no tags. */
  function FromName(name: string): (k: Key)
    ensures k.KeyName() == name && k.Tags() == []
  {
    Key(name, [])
  }

  /** `Key::from`: the tags are kept exactly as given. */
  function From(name: string, tags: seq<Tag>): (k: Key)
    ensures k.KeyName() == name && k.Tags() == tags
  {
    Key(name, tags)
  }

  /** `PartialEq for Key`: names equal and tag vectors equal element-wise, in order.
      This is exactly structural equality of the key value. */
  function KeyEq(a: Key, b: Key): (r: bool)
    ensures r <==> a == b
    ensures r <==> a.name == b.name && |a.tags| == |b.tags| && forall i :: 0 <= i < |a.tags| ==> a.tags[i] == b.tags[i]
  {
    a.name == b.name && a.tags == b.tags
  }

  /** `Ord for Key`: the tuple (name, tags) lexicographically. */
  /** It reports Equal exactly when `PartialEq for Key` holds. */
  function CompareKey(a: Key, b: Key): (r: Ordering)
    ensures r == Equal <==> KeyEq(a, b)
  {
    StringOrderTotal();
    TagOrderTotal();
    LexEqualIff(a.tags, b.tags, CompareTag);
    CompareString(a.name, b.name).Then(LexCompare(a.tags, b.tags, CompareTag))
  }

  // ---------------------------------------------------------------------
  // Ordering lemmas

  lemma CharOrderTotal()
    ensures IsTotalOrder(CompareChar)
  {
  }

  lemma {:induction false} LexEqualIff<T(!new)>(a: seq<T>, b: seq<T>, cmp: (T, T) -> Ordering)
    requires IsTotalOrder(cmp)
    ensures LexCompare(a, b, cmp) == Equal <==> a == b
    decreases |a|
  {
    if a != [] && b != [] {
      LexEqualIff(a[1..], b[1..], cmp);
      if a[0] == b[0] && a[1..] == b[1..] {
        assert a == [a[0]] + a[1..] && b == [b[0]] + b[1..];
      }
    }
  }

  lemma {:induction false} LexReverse<T(!new)>(a: seq<T>, b: seq<T>, cmp: (T, T) -> Ordering)
    requires IsTotalOrder(cmp)
    ensures LexCompare(b, a, cmp) == LexCompare(a, b, cmp).Reverse()
    decreases |a|
  {
    if a != [] && b != [] {
      LexReverse(a[1..], b[1..], cmp);
    }
  }

  lemma {:induction false} LexTransitive<T(!new)>(a: seq<T>, b: seq<T>, c: seq<T>, cmp: (T, T) -> Ordering)
    requires IsTotalOrder(cmp)
    requires LexCompare(a, b, cmp) == Less && LexCompare(b, c, cmp) == Less
    ensures LexCompare(a, c, cmp) == Less
    decreases |a|
  {
    if a != [] && b != [] && c != [] {
      var ab, bc := cmp(a[0], b[0]), cmp(b[0], c[0]);
      if ab == Equal && bc == Equal {
        LexTransitive(a[1..], b[1..], c[1..], cmp);
      } else if ab == Equal {
        assert a[0] == b[0];
      } else if bc == Equal {
        assert b[0] == c[0];
      }
    }
  }

  /** Lexicographic extension preserves total orders. */
  lemma LexTotal<T(!new)>(cmp: (T, T) -> Ordering)
    requires IsTotalOrder(cmp)
    ensures forall a, b :: LexCompare(a, b, cmp) == Equal <==> a == b
    ensures forall a, b :: LexCompare(b, a, cmp) == LexCompare(a, b, cmp).Reverse()
    ensures forall a, b, c :: LexCompare(a, b, cmp) == Less && LexCompare(b, c, cmp) == Less ==> LexCompare(a, c, cmp) == Less
  {
    forall a: seq<T>, b: seq<T> ensures LexCompare(a, b, cmp) == Equal <==> a == b {
      LexEqualIff(a, b, cmp);
    }
    forall a: seq<T>, b: seq<T> ensures LexCompare(b, a, cmp) == LexCompare(a, b, cmp).Reverse() {
      LexReverse(a, b, cmp);
    }
    forall a: seq<T>, b: seq<T>, c: seq<T> | LexCompare(a, b, cmp) == Less && LexCompare(b, c, cmp) == Less
      ensures LexCompare(a, c, cmp) == Less
    {
      LexTransitive(a, b, c, cmp);
    }
  }

  lemma StringOrderTotal()
    ensures IsTotalOrder(CompareString)
  {
    CharOrderTotal();
    LexTotal(CompareChar);
  }

  /** The derived tag ordering is a total order consistent with equality. */
  lemma TagOrderTotal()
    ensures IsTotalOrder(CompareTag)
  {
    StringOrderTotal();
    forall x: Tag, y: Tag, z: Tag | CompareTag(x, y) == Less && CompareTag(y, z) == Less
      ensures CompareTag(x, z) == Less
    {
      var k1, k2 := CompareString(x.key, y.key), CompareString(y.key, z.key);
      if k1 == Equal && k2 == Equal {
        assert CompareString(x.value, y.value) == Less && CompareString(y.value, z.value) == Less;
      } else if k1 == Equal {
        assert x.key == y.key;
      } else if k2 == Equal {
        assert y.key == z.key;
      }
    }
  }

  /** `Ord for Key` is a total order, and `cmp == Equal` holds exactly when
      `PartialEq` does. */
  lemma KeyOrderTotal()
    ensures IsTotalOrder(CompareKey)
    ensures forall a, b :: CompareKey(a, b) == Equal <==> KeyEq(a, b)
  {
    StringOrderTotal();
    TagOrderTotal();
    LexTotal(CompareTag);
    forall x: Key, y: Key, z: Key | CompareKey(x, y) == Less && CompareKey(y, z) == Less
      ensures CompareKey(x, z) == Less
    {
      var n1, n2 := CompareString(x.name, y.name), CompareString(y.name, z.name);
      if n1 == Equal && n2 == Equal {
        LexTransitive(x.tags, y.tags, z.tags, CompareTag);
      } else if n1 == Equal {
        assert x.name == y.name;
      } else if n2 == Equal {
        assert y.name == z.name;
      }
    }
  }

  /** Tag order is significant: the same two distinct tags in the other order
      give a different key, which compares unequal. */
  lemma TagOrderMatters(name: string, t1: Tag, t2: Tag)
    requires t1 != t2
    ensures From(name, [t1, t2]) != From(name, [t2, t1])
    ensures CompareKey(From(name, [t1, t2]), From(name, [t2, t1])) != Equal
  {
    KeyOrderTotal();
    assert From(name, [t1, t2]).tags[0] != From(name, [t2, t1]).tags[0];
  }

  /** `meter(name)` and `meter_with_tags(name, tags)` address different
      entries whenever tags are given, and distinct names never collide. */
  lemma UntaggedAndTaggedDiffer(name: string, other: string, tags: seq<Tag>)
    ensures tags != [] ==> FromName(name) != From(name, tags)
    ensures FromName(name) == FromName(other) <==> name == other
    ensures From(name, []) == FromName(name)
  {
  }

  /** Rebuilding a key from its accessors gives the same key. */
  lemma AccessorsRoundTrip(k: Key)
    ensures From(k.KeyName(), k.Tags()) == k
  {
  }

  // ---------------------------------------------------------------------
  // Hashing

  /** What `Hash for Key` feeds the hasher, token by token: `str::hash` writes
      the characters and then a terminator (the byte 0xff, which never occurs
      in UTF-8); a slice writes its length and then each element; a tag
      writes its key and then its value. */
  datatype HashToken = Char(c: char) | StrEnd | Length(n: nat)

  function StrHash(s: string): (r: seq<HashToken>)
    ensures |r| == |s| + 1 && r[|s|] == StrEnd
    ensures forall i :: 0 <= i < |s| ==> r[i] == Char(s[i])
  {
    if s == [] then [StrEnd] else [Char(s[0])] + StrHash(s[1..])
  }

  function TagHash(t: Tag): seq<HashToken> {
    StrHash(t.key) + StrHash(t.value)
  }

  function TagsBody(ts: seq<Tag>): seq<HashToken> {
    if ts == [] then [] else TagHash(ts[0]) + TagsBody(ts[1..])
  }

  /** `key_hasher_impl`: name first, then the tag slice (length-prefixed). */
  function KeyHash(k: Key): (r: seq<HashToken>)
    ensures |r| >= |k.name| + 2
    ensures r[..|k.name| + 1] == StrHash(k.name)
    ensures r[|k.name| + 1] == Length(|k.tags|)
  {
    StrHash(k.name) + [Length(|k.tags|)] + TagsBody(k.tags)
  }

  /** The encoding of a string is prefix-free: it can be split off uniquely. */
  lemma {:induction false} StrHashPrefixFree(s: string, t: string, x: seq<HashToken>, y: seq<HashToken>)
    requires StrHash(s) + x == StrHash(t) + y
    ensures s == t && x == y
  {
    var l, r := StrHash(s) + x, StrHash(t) + y;
    if s == [] {
      assert l[0] == StrEnd;
      assert x == l[1..] && y == r[1..];
    } else {
      assert l[0] == Char(s[0]);
      if t != [] {
        assert r[0] == Char(t[0]);
        assert l[1..] == StrHash(s[1..]) + x;
        assert r[1..] == StrHash(t[1..]) + y;
        StrHashPrefixFree(s[1..], t[1..], x, y);
        assert s == [s[0]] + s[1..] && t == [t[0]] + t[1..];
      }
    }
  }

  lemma {:induction false} TagsBodyPrefixFree(ts: seq<Tag>, us: seq<Tag>, x: seq<HashToken>, y: seq<HashToken>)
    requires |ts| == |us|
    requires TagsBody(ts) + x == TagsBody(us) + y
    ensures ts == us && x == y
  {
    if ts == [] {
      assert TagsBody(ts) == [] && TagsBody(us) == [];
      assert x == TagsBody(ts) + x;
      assert y == TagsBody(us) + y;
    } else {
      var a, b := ts[0], us[0];
      var xs, ys := TagsBody(ts[1..]) + x, TagsBody(us[1..]) + y;
      assert TagsBody(ts) + x == TagHash(a) + xs;
      assert TagsBody(us) + y == TagHash(b) + ys;
      TagHashPrefixFree(a, b, xs, ys);
      TagsBodyPrefixFree(ts[1..], us[1..], x, y);
      assert ts == [a] + ts[1..] && us == [b] + us[1..];
    }
  }

  /** The encoding of one tag can be split off uniquely. */
  lemma TagHashPrefixFree(a: Tag, b: Tag, x: seq<HashToken>, y: seq<HashToken>)
    requires TagHash(a) + x == TagHash(b) + y
    ensures a == b && x == y
  {
    assert TagHash(a) + x == StrHash(a.key) + (StrHash(a.value) + x);
    assert TagHash(b) + y == StrHash(b.key) + (StrHash(b.value) + y);
    StrHashPrefixFree(a.key, b.key, StrHash(a.value) + x, StrHash(b.value) + y);
    StrHashPrefixFree(a.value, b.value, x, y);
  }

  /** Hash is consistent with equality in both directions: equal keys feed the
      hasher the same tokens, and keys that feed the same tokens are equal
      (so only the final hash function can collide, never the encoding). */
  lemma KeyHashInjective(a: Key, b: Key)
    ensures KeyHash(a) == KeyHash(b) <==> KeyEq(a, b)
  {
    if KeyHash(a) == KeyHash(b) {
      var ra := KeyHashRest(a);
      var rb := KeyHashRest(b);
      StrHashPrefixFree(a.name, b.name, ra, rb);
      assert |a.tags| == |b.tags| by {
        assert ra[0] == rb[0];
      }
      assert TagsBody(a.tags) + [] == TagsBody(b.tags) + [] by {
        assert ra[1..] == TagsBody(a.tags) + [];
        assert rb[1..] == TagsBody(b.tags) + [];
      }
      TagsBodyPrefixFree(a.tags, b.tags, [], []);
    }
  }

  /** What a key feeds the hasher after its name: the tag count, then the tags. */
  function KeyHashRest(k: Key): (r: seq<HashToken>)
    ensures KeyHash(k) == StrHash(k.name) + r
    ensures r[0] == Length(|k.tags|) && r[1..] == TagsBody(k.tags) + []
  {
    [Length(|k.tags|)] + TagsBody(k.tags)
  }
}
