/** The JSON side of the license payload: a Python `dict` of string claims in
    insertion order, the dict operations the gate uses (`get`, `in`, item
    assignment, the comprehension that drops a key), `sorted(d.items())`, and
    `json.dumps` with its default separators and `ensure_ascii` escaping. */
module Json {
  import opened Wrappers
  import PyStr
  import ByteStrings

  datatype Item = Item(key: string, value: string)

  /** A Python dict from strings to strings; the sequence order is the
      dict's insertion order. */
  type Dict = seq<Item>

  /** What `json.loads` produced: an object, or some other JSON value (an
      array, a string, a number, ...) known by its Python type name. */
  datatype Value = Object(members: Dict) | NonObject(typeName: string)

  function Keys(d: Dict): set<string> {
    set x | x in d :: x.key
  }

  /** A real dict never holds a key twice. */
  predicate UniqueKeys(d: Dict) {
    forall i, j :: 0 <= i < j < |d| ==> d[i].key != d[j].key
  }

  /** `d.get(k)`. */
  function Get(d: Dict, k: string): (r: Option<string>)
    ensures r.None? <==> k !in Keys(d)
    ensures r.Some? ==> Item(k, r.value) in d
  {
    if |d| == 0 then None
    else if d[0].key == k then Some(d[0].value)
    else (assert forall x :: x in d[1..] ==> x in d; Get(d[1..], k))
  }

  /** The key-to-value mapping a dict denotes, forgetting insertion order. */
  function ToMap(d: Dict): (m: map<string, string>)
    ensures m.Keys == Keys(d)
    ensures forall k :: Get(d, k) == (if k in m then Some(m[k]) else None)
  {
    if |d| == 0 then map[]
    else
      var m := ToMap(d[1..])[d[0].key := d[0].value];
      assert Keys(d) == {d[0].key} + Keys(d[1..]) by {
        assert d == [d[0]] + d[1..];
      }
      m
  }

  /** Dicts on which `get` agrees for every key denote the same mapping. */
  lemma SameGetSameMap(a: Dict, b: Dict)
    requires forall k :: Get(a, k) == Get(b, k)
    ensures ToMap(a) == ToMap(b)
  {
    var ma, mb := ToMap(a), ToMap(b);
    forall k ensures (k in ma <==> k in mb) && (k in ma ==> ma[k] == mb[k]) {
      assert Get(a, k) == (if k in ma then Some(ma[k]) else None);
      assert Get(b, k) == (if k in mb then Some(mb[k]) else None);
    }
  }

  /** Dicts that denote the same mapping agree on `get` for every key. */
  lemma SameMapSameGet(a: Dict, b: Dict)
    requires ToMap(a) == ToMap(b)
    ensures forall k :: Get(a, k) == Get(b, k)
  {
    forall k ensures Get(a, k) == Get(b, k) {
      assert Get(a, k) == (if k in ToMap(a) then Some(ToMap(a)[k]) else None);
      assert Get(b, k) == (if k in ToMap(b) then Some(ToMap(b)[k]) else None);
    }
  }

  /** `d[k] = v`: an existing key keeps its position and takes the new
      value; a new key is appended. */
  function Set(d: Dict, k: string, v: string): (r: Dict)
    ensures k !in Keys(d) ==> r == d + [Item(k, v)]
  {
    if |d| == 0 then [Item(k, v)]
    else if d[0].key == k then [Item(k, v)] + d[1..]
    else (assert d[0] in d && forall x :: x in d[1..] ==> x in d; [d[0]] + Set(d[1..], k, v))
  }

  /** After `d[k] = v`, `k` maps to `v` and every other key keeps its value. */
  lemma {:induction false} SetGet(d: Dict, k: string, v: string, k': string)
    ensures Get(Set(d, k, v), k) == Some(v)
    ensures k' != k ==> Get(Set(d, k, v), k') == Get(d, k')
  {
    if |d| > 0 && d[0].key != k {
      SetGet(d[1..], k, v, k');
      assert Set(d, k, v)[1..] == Set(d[1..], k, v);
    }
  }

  /** Assigning a key a dict does not hold keeps its keys distinct. */
  lemma SetFreshKeyUnique(d: Dict, k: string, v: string)
    requires UniqueKeys(d) && k !in Keys(d)
    ensures UniqueKeys(Set(d, k, v))
  {
    var r := Set(d, k, v);
    forall i, j | 0 <= i < j < |r| ensures r[i].key != r[j].key {
      if j == |d| { assert d[i] in d; }
    }
  }

  /** `{k2: v for k2, v in d.items() if k2 != k}`: every other item
      survives unchanged, in the same order. */
  function Without(d: Dict, k: string): (r: Dict)
    ensures forall x :: x in r <==> x in d && x.key != k
    ensures Keys(r) == Keys(d) - {k}
    ensures Get(r, k) == None
    ensures forall k' :: k' != k ==> Get(r, k') == Get(d, k')
    ensures UniqueKeys(d) ==> UniqueKeys(r)
  {
    if |d| == 0 then []
    else
      assert d == [d[0]] + d[1..];
      if d[0].key == k then Without(d[1..], k) else [d[0]] + Without(d[1..], k)
  }

  /** Dropping a key the dict does not hold leaves the dict as it was. */
  lemma {:induction false} WithoutAbsent(d: Dict, k: string)
    requires k !in Keys(d)
    ensures Without(d, k) == d
  {
    if |d| > 0 {
      assert d == [d[0]] + d[1..];
      assert Keys(d) == {d[0].key} + Keys(d[1..]);
      WithoutAbsent(d[1..], k);
    }
  }

  /** Assigning a fresh key and then filtering it out again gives back the
      original dict, item for item and in the same order. */
  lemma {:induction false} WithoutAfterSet(d: Dict, k: string, v: string)
    requires k !in Keys(d)
    ensures Without(Set(d, k, v), k) == d
  {
    WithoutAppended(d, Item(k, v));
    WithoutAbsent(d, k);
  }

  lemma {:induction false} WithoutAppended(d: Dict, x: Item)
    ensures Without(d + [x], x.key) == Without(d, x.key)
  {
    if |d| == 0 {
      assert d + [x] == [x] && [x][1..] == [];
    } else {
      assert (d + [x])[0] == d[0] && (d + [x])[1..] == d[1..] + [x];
      WithoutAppended(d[1..], x);
    }
  }

  /** Strictly ascending keys, in Python's `str` order. */
  predicate SortedByKey(d: Dict) {
    forall i, j :: 0 <= i < j < |d| ==> PyStr.Less(d[i].key, d[j].key)
  }

  /** One step of sorting: place `x` before the first item whose key is
      greater. Only keys are compared: the items of a dict never share one. */
  function Insert(x: Item, s: Dict): (r: Dict)
    ensures multiset(r) == multiset(s) + multiset{x}
  {
    if |s| == 0 then [x]
    else if PyStr.Less(x.key, s[0].key) then [x] + s
    else
      assert s == [s[0]] + s[1..];
      [s[0]] + Insert(x, s[1..])
  }

  /** `sorted(d.items())`. */
  function SortByKey(d: Dict): (r: Dict)
    ensures multiset(r) == multiset(d)
  {
    if |d| == 0 then []
    else
      assert d == [d[0]] + d[1..];
      Insert(d[0], SortByKey(d[1..]))
  }

  lemma {:induction false} InsertSorted(x: Item, s: Dict)
    requires SortedByKey(s) && x.key !in Keys(s)
    ensures SortedByKey(Insert(x, s))
  {
    if |s| > 0 {
      assert s[0] in s;
      if PyStr.Less(x.key, s[0].key) {
        PrependSmaller(x, s);
      } else {
        PyStr.LessTotal(x.key, s[0].key);
        var t := s[1..];
        assert forall y :: y in t ==> y in s;
        InsertSorted(x, t);
        var u := Insert(x, t);
        forall y | y in u ensures PyStr.Less(s[0].key, y.key) {
          assert y in multiset(u);
          if y != x {
            assert y in multiset(t);
            HeadBelowTail(s, y);
          }
        }
        ConsSorted(s[0], u);
      }
    }
  }

  /** An item whose key is below the head of a sorted list can go in front. */
  lemma PrependSmaller(x: Item, s: Dict)
    requires SortedByKey(s) && |s| > 0 && PyStr.Less(x.key, s[0].key)
    ensures SortedByKey([x] + s)
  {
    forall j | 0 <= j < |s| ensures PyStr.Less(x.key, s[j].key) {
      if j > 0 { PyStr.LessTransitive(x.key, s[0].key, s[j].key); }
    }
  }

  /** In a sorted list, every item of the tail has a key above the head's. */
  lemma HeadBelowTail(s: Dict, y: Item)
    requires SortedByKey(s) && |s| > 0 && y in s[1..]
    ensures PyStr.Less(s[0].key, y.key)
  {
    var i :| 0 <= i < |s[1..]| && s[1..][i] == y;
    assert s[i + 1] == y;
  }

  lemma ConsSorted(y: Item, u: Dict)
    requires SortedByKey(u) && forall z :: z in u ==> PyStr.Less(y.key, z.key)
    ensures SortedByKey([y] + u)
  {
    var r := [y] + u;
    forall i, j | 0 <= i < j < |r| ensures PyStr.Less(r[i].key, r[j].key) {
      if i == 0 { assert r[j] == u[j - 1] && u[j - 1] in u; }
      else { assert r[i] == u[i - 1] && r[j] == u[j - 1]; }
    }
  }

  /** Sorting a real dict yields its items in strictly ascending key order. */
  lemma {:induction false} SortByKeySorted(d: Dict)
    requires UniqueKeys(d)
    ensures SortedByKey(SortByKey(d))
  {
    if |d| > 0 {
      var t := d[1..];
      assert UniqueKeys(t) by {
        forall i, j | 0 <= i < j < |t| ensures t[i].key != t[j].key {
          assert t[i] == d[i + 1] && t[j] == d[j + 1];
        }
      }
      SortByKeySorted(t);
      var st := SortByKey(t);
      assert d[0].key !in Keys(st) by {
        forall y | y in st ensures y.key != d[0].key {
          assert y in multiset(st);
          assert y in t;
          var i :| 0 <= i < |t| && t[i] == y;
          assert d[i + 1] == y;
        }
      }
      InsertSorted(d[0], st);
    }
  }

  /** Two strictly sorted sequences holding the same items are equal. */
  lemma {:induction false} SortedUnique(a: Dict, b: Dict)
    requires SortedByKey(a) && SortedByKey(b)
    requires forall x :: x in a <==> x in b
    ensures a == b
  {
    if |a| == 0 || |b| == 0 {
      if |a| > 0 { HeadIsMember(a); }
      if |b| > 0 { HeadIsMember(b); }
    } else {
      assert a[0] in b && b[0] in a;
      if a[0] != b[0] {
        var j :| 0 <= j < |b| && b[j] == a[0];
        var i :| 0 <= i < |a| && a[i] == b[0];
        assert PyStr.Less(b[0].key, a[0].key);
        PyStr.LessAsymmetric(b[0].key, a[0].key);
        assert false;
      }
      forall x ensures x in a[1..] <==> x in b[1..] {
        SortedTailMembers(a, x);
        SortedTailMembers(b, x);
      }
      SortedUnique(a[1..], b[1..]);
      assert a == [a[0]] + a[1..] && b == [b[0]] + b[1..];
    }
  }

  lemma HeadIsMember(a: Dict)
    requires |a| > 0
    ensures a[0] in a
  {
  }

  lemma SortedTailMembers(a: Dict, x: Item)
    requires SortedByKey(a) && |a| > 0
    ensures x in a[1..] <==> x in a && x != a[0]
  {
    if x in a[1..] {
      var i :| 0 <= i < |a[1..]| && a[1..][i] == x;
      assert a[i + 1] == x;
      PyStr.LessIrreflexive(a[0].key);
    }
    if x in a && x != a[0] {
      var i :| 0 <= i < |a| && a[i] == x;
      assert a[1..][i - 1] == x;
    }
  }

  /** In a real dict, an item is present exactly when the mapping holds it. */
  lemma {:induction false} ItemsOfMap(d: Dict, x: Item)
    requires UniqueKeys(d)
    ensures x in d <==> x.key in ToMap(d) && ToMap(d)[x.key] == x.value
  {
    if |d| > 0 {
      var t := d[1..];
      assert UniqueKeys(t) by {
        forall i, j | 0 <= i < j < |t| ensures t[i].key != t[j].key {
          assert t[i] == d[i + 1] && t[j] == d[j + 1];
        }
      }
      ItemsOfMap(t, x);
      assert d == [d[0]] + t;
      if x in t {
        var i :| 0 <= i < |t| && t[i] == x;
        assert d[i + 1] == x;
      }
    }
  }

  /** `sorted(d.items())` depends only on the key-to-value mapping, not on
      the order in which the keys were inserted. */
  lemma SortByKeyDependsOnlyOnMap(d1: Dict, d2: Dict)
    requires UniqueKeys(d1) && UniqueKeys(d2) && ToMap(d1) == ToMap(d2)
    ensures SortByKey(d1) == SortByKey(d2)
  {
    var s1, s2 := SortByKey(d1), SortByKey(d2);
    SortByKeySorted(d1);
    SortByKeySorted(d2);
    forall x ensures x in s1 <==> x in s2 {
      ItemsOfMap(d1, x);
      ItemsOfMap(d2, x);
      assert x in s1 <==> x in multiset(d1);
      assert x in s2 <==> x in multiset(d2);
    }
    SortedUnique(s1, s2);
  }

  predicate Printable(s: string) {
    forall i :: 0 <= i < |s| ==> ' ' <= s[i] <= '~'
  }

  /** `\uXXXX` with four lower-case hex digits. */
  function UnicodeEscape(n: nat): (r: string)
    requires n < 0x10000
    ensures Printable(r) && |r| == 6
  {
    "\\u" + [ByteStrings.HexDigit(n / 4096), ByteStrings.HexDigit(n / 256 % 16),
             ByteStrings.HexDigit(n / 16 % 16), ByteStrings.HexDigit(n % 16)]
  }

  /** How `json.dumps` (with `ensure_ascii`) writes one character inside a
      string: the two-character escapes, printable ASCII as itself, and
      everything else as `\uXXXX`, astral characters as a surrogate pair. */
  function EscapeChar(c: char): (r: string)
    ensures Printable(r)
    ensures ' ' <= c <= '~' && c != '"' && c != '\\' ==> r == [c]
  {
    if c == '"' then "\\\""
    else if c == '\\' then "\\\\"
    else if c == '\n' then "\\n"
    else if c == '\r' then "\\r"
    else if c == '\t' then "\\t"
    else if c == '\U{8}' then "\\b"
    else if c == '\U{c}' then "\\f"
    else if ' ' <= c <= '~' then [c]
    else if c as int < 0x10000 then UnicodeEscape(c as int)
    else
      var v := c as int - 0x10000;
      UnicodeEscape(0xD800 + v / 0x400) + UnicodeEscape(0xDC00 + v % 0x400)
  }

  function Escape(s: string): (r: string)
    ensures Printable(r)
  {
    if |s| == 0 then "" else EscapeChar(s[0]) + Escape(s[1..])
  }

  function Quote(s: string): (r: string)
    ensures Printable(r)
  {
    "\"" + Escape(s) + "\""
  }

  function Member(x: Item): (r: string)
    ensures Printable(r)
  {
    Quote(x.key) + ": " + Quote(x.value)
  }

  function Members(d: Dict): (r: string)
    ensures Printable(r)
  {
    if |d| == 0 then ""
    else if |d| == 1 then Member(d[0])
    else Member(d[0]) + ", " + Members(d[1..])
  }

  /** `json.dumps(d)`: default separators `", "` and `": "`, items in the
      dict's order; the text is printable ASCII. */
  function Dumps(d: Dict): (r: string)
    ensures Printable(r) && ByteStrings.IsAscii(r)
  {
    "{" + Members(d) + "}"
  }
}
