/**
 * The few pieces of Ruby and ActiveSupport semantics the lighting controller's
 * domain code leans on: dynamically typed values, `blank?`, `Array.wrap`,
 * `String#split` with a one-character separator, `String#start_with?`,
 * ASCII `downcase`, and insertion-ordered `Hash#[]=`.
 */
module Ruby {
  import opened Wrappers

  /**
   * A Ruby value as it reaches the zone helpers or a `jsonb` column:
   * `nil`, booleans, integers, strings, symbols, arrays, or a Zone record
   * (represented by its primary key, nil while unsaved: the only attribute read from it).
   */
  datatype Value =
    | VNil
    | VBool(b: bool)
    | VInt(i: int)
    | VStr(s: string)
    | VSym(sym: string)
    | VArray(items: seq<Value>)
    | VZone(zoneId: Option<int>)

  /** The characters of the POSIX `[[:space:]]` class on Unicode strings. */
  predicate IsSpace(c: char) {
    || ('\t' <= c <= '\r')
    || c == ' '
    || c == '\U{0085}'
    || c == '\U{00A0}'
    || c == '\U{1680}'
    || ('\U{2000}' <= c <= '\U{200A}')
    || c == '\U{2028}'
    || c == '\U{2029}'
    || c == '\U{202F}'
    || c == '\U{205F}'
    || c == '\U{3000}'
  }

  /** `String#blank?`: empty or whitespace only. */
  predicate IsBlankString(s: string) {
    forall i :: 0 <= i < |s| ==> IsSpace(s[i])
  }

  /** `Object#blank?` as ActiveSupport defines it for each kind of value. */
  predicate IsBlank(v: Value) {
    match v
    case VNil => true
    case VBool(b) => !b
    case VInt(_) => false
    case VStr(s) => IsBlankString(s)
    case VSym(name) => |name| == 0
    case VArray(items) => |items| == 0
    case VZone(_) => false
  }

  /** `blank?` of a possibly-nil string attribute. */
  predicate IsBlankName(s: Option<string>) {
    s.None? || IsBlankString(s.value)
  }

  /** Ruby truthiness: everything except `nil` and `false`. */
  predicate Truthy(v: Value) {
    !(v.VNil? || v == VBool(false))
  }

  /** `Array.wrap`: nil becomes [], an array stays itself, anything else x becomes [x]. */
  function ArrayWrap(v: Value): (r: seq<Value>)
    ensures v.VArray? ==> r == v.items
    ensures v.VNil? ==> r == []
    ensures !v.VArray? && !v.VNil? ==> r == [v]
  {
    match v
    case VNil => []
    case VArray(items) => items
    case _ => [v]
  }

  /** `String#start_with?`. */
  predicate StartsWith(s: string, prefix: string) {
    |prefix| <= |s| && s[..|prefix|] == prefix
  }

  /** Every field between separators, empty ones included: one more field than separators. */
  function Fields(s: string, sep: char): (r: seq<string>)
    ensures |r| > 0
  {
    if |s| == 0 then [""]
    else
      var rest := Fields(s[1..], sep);
      if s[0] == sep then [""] + rest else [[s[0]] + rest[0]] + rest[1..]
  }

  /** `Array` minus its trailing empty strings. */
  function DropTrailingEmpty(fields: seq<string>): (r: seq<string>)
    ensures |r| <= |fields|
    ensures r == fields[..|r|]
    ensures |r| > 0 ==> r[|r| - 1] != ""
    ensures forall i :: |r| <= i < |fields| ==> fields[i] == ""
  {
    if |fields| > 0 && fields[|fields| - 1] == "" then DropTrailingEmpty(fields[..|fields| - 1])
    else fields
  }

  /** `String#split(sep)` for a one-character separator: trailing empty fields are removed. */
  function Split(s: string, sep: char): seq<string> {
    DropTrailingEmpty(Fields(s, sep))
  }

  /** A separator in front of the rest starts a new field; a prefix free of separators is one field. */
  lemma {:induction false} FieldsOfSeparated(a: string, sep: char, b: string)
    requires sep !in a
    ensures Fields(a + [sep] + b, sep) == [a] + Fields(b, sep)
    decreases |a|
  {
    if |a| == 0 {
      assert a + [sep] + b == [sep] + b;
      assert ([sep] + b)[1..] == b;
    } else {
      var s := a + [sep] + b;
      assert s[0] == a[0];
      assert s[1..] == a[1..] + [sep] + b;
      FieldsOfSeparated(a[1..], sep, b);
      assert [a[0]] + a[1..] == a;
    }
  }

  /** A string with no separator at all is a single field. */
  lemma {:induction false} FieldsOfUnseparated(a: string, sep: char)
    requires sep !in a
    ensures Fields(a, sep) == [a]
    decreases |a|
  {
    if |a| > 0 {
      assert a[1..] == a[1..];
      assert sep !in a[1..] by {
        forall i | 0 <= i < |a[1..]| ensures a[1..][i] != sep {
          assert a[1..][i] == a[i + 1];
        }
      }
      FieldsOfUnseparated(a[1..], sep);
      assert [a[0]] + a[1..] == a;
    }
  }

  /** Lower-cases the ASCII letters `A`..`Z` and leaves every other character alone. */
  function DowncaseChar(c: char): char {
    if 'A' <= c <= 'Z' then (c as int + 32) as char else c
  }

  /** `String#downcase` restricted to ASCII letters. */
  function Downcase(s: string): (r: string)
    ensures |r| == |s|
    ensures forall i :: 0 <= i < |s| ==> r[i] == DowncaseChar(s[i])
  {
    seq(|s|, i requires 0 <= i < |s| => DowncaseChar(s[i]))
  }

  // ---------------------------------------------------------------------
  // Ruby Hash: an association list in insertion order with distinct keys.
  // ---------------------------------------------------------------------

  /** The keys of an association list, in order. */
  function Keys<K, V>(h: seq<(K, V)>): (r: seq<K>)
    ensures |r| == |h|
    ensures forall i :: 0 <= i < |h| ==> r[i] == h[i].0
  {
    seq(|h|, i requires 0 <= i < |h| => h[i].0)
  }

  /** A Ruby Hash never holds the same key twice. */
  predicate KeysDistinct<K(==), V>(h: seq<(K, V)>) {
    forall i, j :: 0 <= i < j < |h| ==> h[i].0 != h[j].0
  }

  /** The position of the first occurrence of `k`, or nil when it does not occur. */
  function FirstIndex<K(==)>(ks: seq<K>, k: K): (r: Option<nat>)
    ensures r.Some? ==> r.value < |ks| && ks[r.value] == k && forall i :: 0 <= i < r.value ==> ks[i] != k
    ensures r.None? <==> k !in ks
  {
    if |ks| == 0 then None
    else if ks[0] == k then Some(0)
    else match FirstIndex(ks[1..], k)
      case None => None
      case Some(i) => Some(i + 1)
  }

  /** `Hash#[]`: the value stored under a key, or nil. */
  function HashGet<K(==), V>(h: seq<(K, V)>, k: K): (r: Option<V>)
    ensures r.None? <==> k !in Keys(h)
  {
    match FirstIndex(Keys(h), k)
    case None => None
    case Some(i) => Some(h[i].1)
  }

  /**
   * `Hash#[]=`: overwriting a key keeps its original position; a new key goes last.
   */
  function HashPut<K(==), V>(h: seq<(K, V)>, k: K, v: V): (r: seq<(K, V)>)
    ensures Keys(r) == if k in Keys(h) then Keys(h) else Keys(h) + [k]
  {
    match FirstIndex(Keys(h), k)
    case Some(i) =>
      assert Keys(h[i := (k, v)]) == Keys(h);
      h[i := (k, v)]
    case None =>
      assert Keys(h + [(k, v)]) == Keys(h) + [k];
      h + [(k, v)]
  }

  /** Two positions that are both the first occurrence of a key are the same position. */
  lemma FirstIndexUnique<K>(ks: seq<K>, k: K, i: nat, i': nat)
    requires i < |ks| && ks[i] == k && forall x :: 0 <= x < i ==> ks[x] != k
    requires i' < |ks| && ks[i'] == k && forall x :: 0 <= x < i' ==> ks[x] != k
    ensures i == i'
  {
  }

  /** After `h[k] = v`, reading `k` gives `v`, every other key reads as before, and keys stay distinct. */
  lemma HashPutSpec<K, V>(h: seq<(K, V)>, k: K, v: V, j: K)
    ensures HashGet(HashPut(h, k, v), j) == if j == k then Some(v) else HashGet(h, j)
    ensures KeysDistinct(h) ==> KeysDistinct(HashPut(h, k, v))
  {
    var r := HashPut(h, k, v);
    var ks := Keys(h);
    match FirstIndex(ks, k)
    case Some(i) =>
      assert r == h[i := (k, v)];
      assert Keys(r) == ks;
    case None =>
      assert r == h + [(k, v)];
      assert Keys(r) == ks + [k];
      if j in ks {
        var n := FirstIndex(ks, j).value;
        var n' := FirstIndex(Keys(r), j).value;
        assert Keys(r)[n] == j;
        FirstIndexUnique(Keys(r), j, n, n');
      }
      if KeysDistinct(h) {
        forall a, b | 0 <= a < b < |r| ensures r[a].0 != r[b].0 {
          if b == |h| {
            assert r[a].0 == ks[a];
          }
        }
      }
  }

  /** The value of the last pair carrying key `k`, or nil when no pair does. */
  function LastValueFor<K(==), V>(pairs: seq<(K, V)>, k: K): Option<V> {
    if |pairs| == 0 then None
    else if pairs[|pairs| - 1].0 == k then Some(pairs[|pairs| - 1].1)
    else LastValueFor(pairs[..|pairs| - 1], k)
  }

  /** A key has a last value exactly when some pair carries it, and that value is some pair's value. */
  lemma {:induction false} LastValueForPresent<K, V>(pairs: seq<(K, V)>, k: K)
    ensures LastValueFor(pairs, k).Some? <==> k in Keys(pairs)
    ensures LastValueFor(pairs, k).Some? ==> (k, LastValueFor(pairs, k).value) in pairs
    decreases |pairs|
  {
    if |pairs| > 0 {
      var init := pairs[..|pairs| - 1];
      LastValueForPresent(init, k);
      assert Keys(pairs) == Keys(init) + [pairs[|pairs| - 1].0];
      assert pairs == init + [pairs[|pairs| - 1]];
    }
  }

  /** The keys of a list in order of first occurrence, each once. */
  function FirstOccurrences<K(==)>(ks: seq<K>): seq<K> {
    if |ks| == 0 then []
    else
      var d := FirstOccurrences(ks[..|ks| - 1]);
      if ks[|ks| - 1] in d then d else d + [ks[|ks| - 1]]
  }

  /** The Hash that `pairs.each { |k, v| h[k] = v }` builds from an empty one. */
  function HashFromPairs<K(==), V>(pairs: seq<(K, V)>): seq<(K, V)> {
    if |pairs| == 0 then []
    else HashPut(HashFromPairs(pairs[..|pairs| - 1]), pairs[|pairs| - 1].0, pairs[|pairs| - 1].1)
  }

  /**
   * Building a Hash pair by pair: the keys are distinct, appear in order of
   * first occurrence, and each holds the value of its LAST pair.
   */
  lemma {:induction false} HashFromPairsSpec<K(!new), V>(pairs: seq<(K, V)>)
    ensures KeysDistinct(HashFromPairs(pairs))
    ensures Keys(HashFromPairs(pairs)) == FirstOccurrences(Keys(pairs))
    ensures forall k :: HashGet(HashFromPairs(pairs), k) == LastValueFor(pairs, k)
    decreases |pairs|
  {
    if |pairs| > 0 {
      var init := pairs[..|pairs| - 1];
      HashFromPairsSpec(init);
      assert Keys(pairs)[..|pairs| - 1] == Keys(init);
      var (k, v) := pairs[|pairs| - 1];
      HashPutSpec(HashFromPairs(init), k, v, k);
      forall j ensures HashGet(HashFromPairs(pairs), j) == LastValueFor(pairs, j) {
        HashPutSpec(HashFromPairs(init), k, v, j);
      }
    }
  }
}
