/** Model of `org.monte.media.Format`: an immutable map from typed keys to
    values. Every key declares the class of value it accepts and both
    constructors reject a value of another class with a
    `ClassCastException`.

    `FormatKey` and the key constants live in classes that are not part of
    this model; a key is modelled by its name and the class of value it
    accepts, and a value by its class and content. Java's `equals` on the
    stored values (strings, boxed numbers, rationals, enum constants) is
    value equality, which is `==` here. */
module Formats {
  import opened Wrappers
  import opened Rationals

  /** The classes of value a key can declare. */
  datatype ValueClass = StringClass | IntegerClass | LongClass | BooleanClass | RationalClass | EnumClass(enumName: string)

  datatype Value =
    | StringValue(s: string)
    | IntegerValue(i: int)
    | LongValue(l: int)
    | BooleanValue(b: bool)
    | RationalValue(r: Rational)
    | EnumValue(enumName: string, constant: string)

  function ClassOf(v: Value): ValueClass {
    match v
    case StringValue(_) => StringClass
    case IntegerValue(_) => IntegerClass
    case LongValue(_) => LongClass
    case BooleanValue(_) => BooleanClass
    case RationalValue(_) => RationalClass
    case EnumValue(e, _) => EnumClass(e)
  }

  datatype FormatKey = FormatKey(name: string, valueClass: ValueClass)

  /** `FormatKey.isAssignable`: the value is of the key's declared class. */
  predicate IsAssignable(k: FormatKey, v: Value) {
    ClassOf(v) == k.valueClass
  }

  predicate WellTyped(m: map<FormatKey, Value>) {
    forall k :: k in m ==> IsAssignable(k, m[k])
  }

  type Format = m: map<FormatKey, Value> | WellTyped(m) witness map[]

  /** The keys the recorder and the reader consult. */
  const MediaTypeKey := FormatKey("mediaType", EnumClass("MediaType"))
  const EncodingKey := FormatKey("encoding", StringClass)
  const FrameRateKey := FormatKey("frameRate", RationalClass)
  const DepthKey := FormatKey("depth", IntegerClass)
  const FrameSizeKey := FormatKey("frameSize", IntegerClass)

  /** Two formats agree on every key both define. */
  ghost predicate Agree(a: Format, b: Format) {
    forall k :: k in a && k in b ==> a[k] == b[k]
  }

  /** The set of keys a key array holds. */
  function Elements(keys: seq<FormatKey>): set<FormatKey> {
    set i | 0 <= i < |keys| :: keys[i]
  }

  /** `r` is `f` without the keys in `ks`, every other entry unchanged. */
  ghost predicate IsRemoval(f: Format, ks: set<FormatKey>, r: Format) {
    r.Keys == f.Keys - ks && forall k :: k in r ==> r[k] == f[k]
  }

  // ---------------------------------------------------------------------
  // Construction
  // ---------------------------------------------------------------------

  /** `Format(Map)`: every entry is checked against its key's class, then
      the map is copied. */
  method FromMap(m: map<FormatKey, Value>) returns (r: Result<Format, Exception>)
    ensures r.Success? <==> WellTyped(m)
    ensures r.Success? ==> r.value == m
    ensures r.Failure? ==> r.error == ClassCast
  {
    var todo := m.Keys;
    while todo != {}
      invariant todo <= m.Keys
      invariant forall k :: k in m.Keys - todo ==> IsAssignable(k, m[k])
      decreases |todo|
    {
      var k :| k in todo;
      if !IsAssignable(k, m[k]) {
        return Failure(ClassCast);
      }
      todo := todo - {k};
    }
    return Success(m);
  }

  /** An element of the `Format(Object...)` argument list: a key or a
      value. */
  datatype Arg = KeyArg(key: FormatKey) | ValArg(value: Value)

  /** Position j of a pair list holds a key followed by a value of its
      class. */
  predicate PairOk(p: seq<Arg>, j: int)
    requires 0 <= j < |p|
  {
    p[j].KeyArg? && j + 1 < |p| && p[j + 1].ValArg? && IsAssignable(p[j].key, p[j + 1].value)
  }

  /** The key at even position j does not occur again before position n. */
  predicate LastBefore(p: seq<Arg>, j: int, n: int)
    requires 0 <= j < |p| && n <= |p|
  {
    forall l :: j < l < n && l % 2 == 0 ==> p[l] != p[j]
  }

  /** The first n elements of p are well-formed pairs. */
  predicate PairsOk(p: seq<Arg>, n: int)
    requires n <= |p|
  {
    forall j {:trigger PairOk(p, j)} :: 0 <= j < n && j % 2 == 0 ==> PairOk(p, j)
  }

  /** The keys of m are those at even positions before n. */
  ghost predicate KeysBefore(p: seq<Arg>, n: int, m: map<FormatKey, Value>) {
    forall k :: k in m <==> exists j :: 0 <= j < n && j < |p| && j % 2 == 0 && p[j] == KeyArg(k)
  }

  /** m holds the value that follows the last occurrence of each key
      before position n. */
  ghost predicate LastValuesBefore(p: seq<Arg>, n: int, m: map<FormatKey, Value>)
    requires n <= |p|
  {
    forall j {:trigger LastBefore(p, j, n)} :: 0 <= j < n && j % 2 == 0 && PairOk(p, j) && LastBefore(p, j, n) ==>
      p[j].key in m && m[p[j].key] == p[j + 1].value
  }

  /** Putting the pair at position i keeps the map's keys those of the
      pairs read so far. */
  lemma PutPairKeys(p: seq<Arg>, i: int, m: map<FormatKey, Value>)
    requires 0 <= i && i % 2 == 0 && i + 2 <= |p| && PairOk(p, i)
    requires KeysBefore(p, i, m)
    ensures KeysBefore(p, i + 2, m[p[i].key := p[i + 1].value])
  {
    var k, v := p[i].key, p[i + 1].value;
    var m' := m[k := v];
    forall k' | k' in m'
      ensures exists j :: 0 <= j < i + 2 && j < |p| && j % 2 == 0 && p[j] == KeyArg(k')
    {
      if k' == k {
        assert p[i] == KeyArg(k');
      }
    }
  }

  /** Putting the pair at position i keeps every key's value that of its
      last pair read so far. */
  lemma PutPairValues(p: seq<Arg>, i: int, m: map<FormatKey, Value>)
    requires 0 <= i && i % 2 == 0 && i + 2 <= |p| && PairOk(p, i)
    requires LastValuesBefore(p, i, m)
    ensures LastValuesBefore(p, i + 2, m[p[i].key := p[i + 1].value])
  {
    var k, v := p[i].key, p[i + 1].value;
    var m' := m[k := v];
    forall j | 0 <= j < i + 2 && j % 2 == 0 && PairOk(p, j) && LastBefore(p, j, i + 2)
      ensures p[j].key in m' && m'[p[j].key] == p[j + 1].value
    {
      if j < i {
        assert LastBefore(p, j, i);
        assert p[i] != p[j];
      }
    }
  }

  /** The map the first n well-formed pairs build, one `put` after the
      other. */
  function Built(p: seq<Arg>, n: int): (m: Format)
    requires 0 <= n <= |p| && n % 2 == 0 && PairsOk(p, n)
    decreases n
  {
    if n == 0 then
      map[]
    else
      assert PairOk(p, n - 2);
      Built(p, n - 2)[p[n - 2].key := p[n - 1].value]
  }

  /** The map built from the first n pairs holds exactly their keys, each
      with the value of its last pair. */
  lemma {:induction false} BuiltDescribes(p: seq<Arg>, n: int)
    requires 0 <= n <= |p| && n % 2 == 0 && PairsOk(p, n)
    ensures KeysBefore(p, n, Built(p, n)) && LastValuesBefore(p, n, Built(p, n))
    decreases n
  {
    if n > 0 {
      assert PairOk(p, n - 2);
      assert PairsOk(p, n - 2);
      BuiltDescribes(p, n - 2);
      PutPairKeys(p, n - 2, Built(p, n - 2));
      PutPairValues(p, n - 2, Built(p, n - 2));
    }
  }

  /** Position j holds the first ill-formed pair: every pair before it is
      well-formed. */
  ghost predicate FirstBadPair(p: seq<Arg>, j: int) {
    0 <= j < |p| && j % 2 == 0 && PairsOk(p, j) && !PairOk(p, j)
  }

  /** An ill-formed pair after well-formed ones is the first bad pair, and
      the list is not a well-formed list of pairs. */
  lemma BadPairFails(p: seq<Arg>, i: int)
    requires 0 <= i < |p| && i % 2 == 0 && PairsOk(p, i) && !PairOk(p, i)
    ensures FirstBadPair(p, i) && !PairsOk(p, |p|)
    ensures PairError(p, i) == IndexOutOfBounds <==> p[i].KeyArg? && i + 1 == |p|
  {
  }

  /** What reading the ill-formed pair at position j throws: a key in the
      last position reads past the end of the array, anything else fails
      a cast. */
  function PairError(p: seq<Arg>, j: int): Exception
    requires 0 <= j < |p|
  {
    if p[j].KeyArg? && j + 1 == |p| then IndexOutOfBounds else ClassCast
  }

  /** `Format(Object... p)`: key/value pairs are put into the map in order,
      so a repeated key keeps its last value. A non-key at an even position
      or a value of the wrong class throws `ClassCastException`; a key
      without a value reads past the end of the array. */
  method FromPairs(p: seq<Arg>) returns (r: Result<Format, Exception>)
    ensures r.Success? <==> |p| % 2 == 0 && PairsOk(p, |p|)
    ensures r.Failure? ==> r.error == ClassCast || r.error == IndexOutOfBounds
    ensures r.Failure? && r.error == IndexOutOfBounds ==> |p| % 2 == 1
    ensures r.Failure? ==> exists j :: FirstBadPair(p, j) && r.error == PairError(p, j)
    ensures r.Success? ==> KeysBefore(p, |p|, r.value)
    ensures r.Success? ==> LastValuesBefore(p, |p|, r.value)
  {
    var m: Format := map[];
    var i := 0;
    while i < |p|
      invariant 0 <= i <= |p| && i % 2 == 0
      invariant PairsOk(p, i)
      invariant m == Built(p, i)
    {
      if !p[i].KeyArg? {
        BadPairFails(p, i);
        return Failure(ClassCast);
      }
      if i + 1 >= |p| {
        BadPairFails(p, i);
        return Failure(IndexOutOfBounds);
      }
      if !p[i + 1].ValArg? || !IsAssignable(p[i].key, p[i + 1].value) {
        BadPairFails(p, i);
        return Failure(ClassCast);
      }
      assert PairsOk(p, i + 2);
      m := m[p[i].key := p[i + 1].value];
      i := i + 2;
    }
    BuiltDescribes(p, |p|);
    return Success(m);
  }

  /** With well-formed pairs, a key that occurs several times keeps the
      value of its last occurrence. */
  lemma LastPairWins(p: seq<Arg>, r: Format, j: int)
    requires |p| % 2 == 0 && PairsOk(p, |p|) && LastValuesBefore(p, |p|, r)
    requires 0 <= j < |p| && j % 2 == 0 && LastBefore(p, j, |p|)
    ensures p[j].KeyArg? && p[j + 1].ValArg? && r[p[j].key] == p[j + 1].value
  {
  }

  // ---------------------------------------------------------------------
  // Queries
  // ---------------------------------------------------------------------

  /** `get(key)`: the stored value, or `null` (here `None`) for an absent
      key. */
  function Get(f: Format, key: FormatKey): (r: Option<Value>)
    ensures r.Some? <==> key in f
    ensures r.Some? ==> r.value == f[key] && IsAssignable(key, r.value)
  {
    if key in f then Some(f[key]) else None
  }

  /** `get(key, defaultValue)`. */
  function GetOr(f: Format, key: FormatKey, default: Value): (r: Value)
    ensures key in f ==> r == f[key]
    ensures key !in f ==> r == default
  {
    if ContainsKey(f, key) then f[key] else default
  }

  /** `get(key, default)` is `get(key)` with the default standing in for
      `null`. */
  lemma GetOrIsGet(f: Format, key: FormatKey, default: Value)
    ensures GetOr(f, key, default) == Get(f, key).GetOr(default)
  {
  }

  /** `containsKey`: the key is present, which is when `get` does not
      return `null`. */
  predicate ContainsKey(f: Format, key: FormatKey)
    ensures ContainsKey(f, key) <==> Get(f, key).Some?
  {
    key in f
  }

  /** `matches`: a walk over this format's entries that fails at the first
      key both define with different values. */
  method Matches(a: Format, b: Format) returns (r: bool)
    ensures r <==> Agree(a, b)
  {
    var todo := a.Keys;
    while todo != {}
      invariant todo <= a.Keys
      invariant forall k :: k in a.Keys - todo && k in b ==> a[k] == b[k]
      decreases |todo|
    {
      var k :| k in todo;
      if k in b && a[k] != b[k] {
        return false;
      }
      todo := todo - {k};
    }
    return true;
  }

  /** Agreement is reflexive and symmetric, and the empty format agrees
      with every format. */
  lemma AgreeProperties(a: Format, b: Format)
    ensures Agree(a, a)
    ensures Agree(a, b) <==> Agree(b, a)
    ensures Agree(map[], a)
  {
  }

  // ---------------------------------------------------------------------
  // Derived formats
  // ---------------------------------------------------------------------

  /** `append`: this format's entries, plus those of `that` for keys this
      format lacks. */
  method Append(a: Format, b: Format) returns (r: Format)
    ensures forall k :: k in r <==> k in a || k in b
    ensures forall k :: k in a ==> r[k] == a[k]
    ensures forall k :: k in b && k !in a ==> r[k] == b[k]
    ensures Agree(r, a)
    ensures Agree(a, b) ==> Agree(r, b)
  {
    var m: Format := a;
    var todo := b.Keys;
    while todo != {}
      invariant todo <= b.Keys
      invariant forall k :: k in m <==> k in a || (k in b && k !in todo)
      invariant forall k :: k in a ==> m[k] == a[k]
      invariant forall k :: k in m && k !in a ==> m[k] == b[k]
      decreases |todo|
    {
      var k :| k in todo;
      if k !in m {
        m := m[k := b[k]];
      }
      todo := todo - {k};
    }
    var checked := FromMap(m);
    r := checked.value;
  }

  /** `intersectKeys`: the entries of this format whose keys are listed. */
  method IntersectKeys(f: Format, keys: seq<FormatKey>) returns (r: Format)
    ensures r.Keys == f.Keys * Elements(keys)
    ensures forall k :: k in r ==> r[k] == f[k]
    ensures Agree(r, f)
  {
    var m: Format := map[];
    var i := 0;
    while i < |keys|
      invariant 0 <= i <= |keys|
      invariant m.Keys == f.Keys * Elements(keys[..i])
      invariant forall k :: k in m ==> m[k] == f[k]
    {
      assert Elements(keys[..i + 1]) == Elements(keys[..i]) + {keys[i]} by {
        assert keys[..i + 1] == keys[..i] + [keys[i]];
      }
      if keys[i] in f {
        m := m[keys[i] := f[keys[i]]];
      }
      i := i + 1;
    }
    assert keys[..i] == keys;
    var checked := FromMap(m);
    r := checked.value;
  }

  /** `removeKeys`: this format without the listed keys. */
  method RemoveKeys(f: Format, keys: seq<FormatKey>) returns (r: Format)
    ensures IsRemoval(f, Elements(keys), r)
  {
    var m: Format := f;
    var i := 0;
    while i < |keys|
      invariant 0 <= i <= |keys|
      invariant IsRemoval(f, Elements(keys[..i]), m)
    {
      assert Elements(keys[..i + 1]) == Elements(keys[..i]) + {keys[i]} by {
        assert keys[..i + 1] == keys[..i] + [keys[i]];
      }
      m := m - {keys[i]};
      i := i + 1;
    }
    assert keys[..i] == keys;
    var checked := FromMap(m);
    r := checked.value;
  }

  /** `containsKeys`: despite its name and documentation it builds the
      same format as `removeKeys`. */
  method ContainsKeys(f: Format, keys: seq<FormatKey>) returns (r: Format)
    ensures IsRemoval(f, Elements(keys), r)
  {
    var m: Format := f;
    var i := 0;
    while i < |keys|
      invariant 0 <= i <= |keys|
      invariant IsRemoval(f, Elements(keys[..i]), m)
    {
      assert Elements(keys[..i + 1]) == Elements(keys[..i]) + {keys[i]} by {
        assert keys[..i + 1] == keys[..i] + [keys[i]];
      }
      m := m - {keys[i]};
      i := i + 1;
    }
    assert keys[..i] == keys;
    var checked := FromMap(m);
    r := checked.value;
  }

  /** A removal is determined by the format and the keys, so
      `containsKeys` and `removeKeys` return equal formats. */
  lemma RemovalUnique(f: Format, ks: set<FormatKey>, r1: Format, r2: Format)
    requires IsRemoval(f, ks, r1) && IsRemoval(f, ks, r2)
    ensures r1 == r2
  {
    assert forall k :: k in r1 ==> r1[k] == r2[k];
  }

  /** Removing keys leaves a format that agrees with the original and
      lacks every removed key. */
  lemma RemovalAgrees(f: Format, ks: set<FormatKey>, r: Format)
    requires IsRemoval(f, ks, r)
    ensures Agree(r, f)
    ensures forall k :: k in ks ==> k !in r
  {
  }
}
