/**
 * The few PHP value semantics the layout engine depends on: optional values,
 * `empty()` and `isset()` on scalars, `round()`, and PHP's ordered arrays
 * (an association list whose keys keep their first-insertion position).
 */
module Php {

  datatype Option<T> = None | Some(value: T) {
    function GetOr(default: T): T {
      match this
      case Some(v) => v
      case None => default
    }
  }

  /** A PHP array key: an integer (positional) or a string. */
  datatype Key = KInt(n: nat) | KStr(s: string)

  /** A scalar attribute value of a deserialized layout document. */
  datatype Value = VNull | VBool(b: bool) | VNum(r: real) | VStr(s: string)

  /** PHP emptiness of a string: the empty string and "0" are empty. */
  predicate FalsyString(s: string) {
    s == "" || s == "0"
  }

  /** PHP emptiness of a scalar value. */
  predicate EmptyValue(v: Value) {
    match v
    case VNull => true
    case VBool(b) => !b
    case VNum(r) => r == 0.0
    case VStr(s) => FalsyString(s)
  }

  /** PHP `isset` on an attribute: the key is present and not null. */
  predicate IsSet(attributes: map<string, Value>, key: string) {
    key in attributes && attributes[key] != VNull
  }

  /** The value of a scalar in an arithmetic expression: a string is read by its leading decimal number. */
  function NumOf(v: Value): real {
    match v
    case VNum(r) => r
    case VBool(b) => if b then 1.0 else 0.0
    case VStr(s) => NumericPrefix(s)
    case VNull => 0.0
  }

  // ---------------------------------------------------------------------
  // Strings in arithmetic
  // ---------------------------------------------------------------------

  predicate IsDigit(c: char) {
    '0' <= c <= '9'
  }

  /** The white space PHP skips before a number. */
  predicate IsNumericBlank(c: char) {
    c == ' ' || c == '\t' || c == '\n' || c == '\r' || c as int == 11 || c as int == 12
  }

  /** The value of a decimal digit. */
  function DigitValue(c: char): real
    requires IsDigit(c)
  {
    (c as int - '0' as int) as real
  }

  /** Where the reading of a number stands: blanks and sign, whole part, or fraction digits worth `unit`. */
  datatype Phase = Lead | Whole | Fraction(unit: real)

  /**
   * The number at the start of `s` as PHP reads a string in arithmetic, with
   * `acc` read so far (and negated at the end when `neg`): blanks, an optional
   * sign, digits, then an optional point and digits; the rest is ignored.
   */
  function Scan(s: string, ph: Phase, neg: bool, acc: real): real
    decreases |s|, if ph.Lead? then 1 else 0
  {
    match ph
    case Lead =>
      if s != [] && IsNumericBlank(s[0]) then Scan(s[1..], Lead, neg, acc)
      else if s != [] && (s[0] == '-' || s[0] == '+') then Scan(s[1..], Whole, s[0] == '-', acc)
      else Scan(s, Whole, neg, acc)
    case Whole =>
      if s != [] && IsDigit(s[0]) then Scan(s[1..], Whole, neg, acc * 10.0 + DigitValue(s[0]))
      else if s != [] && s[0] == '.' then Scan(s[1..], Fraction(1.0 / 10.0), neg, acc)
      else if neg then -acc else acc
    case Fraction(unit) =>
      if s != [] && IsDigit(s[0]) then Scan(s[1..], Fraction(unit / 10.0), neg, acc + unit * DigitValue(s[0]))
      else if neg then -acc else acc
  }

  /** The number a string stands for in arithmetic; 0 when it does not start with one. */
  function NumericPrefix(s: string): real {
    Scan(s, Lead, false, 0.0)
  }

  /** The decimal digits of a natural number, most significant first. */
  function Decimal(n: nat): (ds: string)
    ensures ds != [] && forall i :: 0 <= i < |ds| ==> IsDigit(ds[i])
  {
    var d := ['0' + (n % 10) as char];
    if n < 10 then d else Decimal(n / 10) + d
  }

  /** A sign read before the digits only negates the result. */
  lemma {:induction false} ScanNegates(s: string, ph: Phase, acc: real)
    requires !ph.Lead?
    ensures Scan(s, ph, true, acc) == -Scan(s, ph, false, acc)
    decreases |s|
  {
    if s != [] && IsDigit(s[0]) && ph.Whole? {
      var acc' := acc * 10.0 + DigitValue(s[0]);
      ScanNegates(s[1..], Whole, acc');
      assert Scan(s, ph, true, acc) == Scan(s[1..], Whole, true, acc');
      assert Scan(s, ph, false, acc) == Scan(s[1..], Whole, false, acc');
    } else if s != [] && IsDigit(s[0]) {
      var acc' := acc + ph.unit * DigitValue(s[0]);
      ScanNegates(s[1..], Fraction(ph.unit / 10.0), acc');
      assert Scan(s, ph, true, acc) == Scan(s[1..], Fraction(ph.unit / 10.0), true, acc');
      assert Scan(s, ph, false, acc) == Scan(s[1..], Fraction(ph.unit / 10.0), false, acc');
    } else if ph.Whole? && s != [] && s[0] == '.' {
      ScanNegates(s[1..], Fraction(1.0 / 10.0), acc);
      assert Scan(s, ph, true, acc) == Scan(s[1..], Fraction(1.0 / 10.0), true, acc);
      assert Scan(s, ph, false, acc) == Scan(s[1..], Fraction(1.0 / 10.0), false, acc);
    } else {
      assert Scan(s, ph, true, acc) == -acc && Scan(s, ph, false, acc) == acc;
    }
  }

  /** One more digit at the end of a run of digits shifts the whole part by one place. */
  lemma {:induction false} ScanSnoc(ds: string, d: char, acc: real)
    requires (forall i :: 0 <= i < |ds| ==> IsDigit(ds[i])) && IsDigit(d)
    ensures Scan(ds + [d], Whole, false, acc) == Scan(ds, Whole, false, acc) * 10.0 + DigitValue(d)
    decreases |ds|
  {
    if ds == [] {
      assert ds + [d] == [d];
    } else {
      assert (ds + [d])[1..] == ds[1..] + [d];
      ScanSnoc(ds[1..], d, acc * 10.0 + DigitValue(ds[0]));
    }
  }

  lemma {:induction false} DecimalRead(n: nat)
    ensures Scan(Decimal(n), Whole, false, 0.0) == n as real
  {
    var ds := Decimal(n);
    var d := ds[|ds| - 1];
    assert DigitValue(d) == (n % 10) as real;
    if n < 10 {
      assert ds[1..] == [];
    } else {
      DecimalRead(n / 10);
      assert ds == Decimal(n / 10) + [d];
      ScanSnoc(Decimal(n / 10), d, 0.0);
      assert (n / 10) as real * 10.0 + (n % 10) as real == n as real;
    }
  }

  /**
   * A size written as the decimal string of a natural number, with or without
   * a minus sign, counts as that number in arithmetic.
   */
  lemma {:induction false} NumOfDecimal(n: nat)
    ensures NumOf(VStr(Decimal(n))) == n as real
    ensures NumOf(VStr("-" + Decimal(n))) == -(n as real)
  {
    var ds := Decimal(n);
    DecimalRead(n);
    assert !IsNumericBlank(ds[0]) && ds[0] != '-' && ds[0] != '+';
    var m := "-" + ds;
    assert m[1..] == ds;
    ScanNegates(ds, Whole, 0.0);
  }

  /** True when a real number has no fractional part. */
  predicate Integral(x: real) {
    x.Floor as real == x
  }

  /** PHP `round()`: the nearest integer, halves rounded away from zero. */
  function Round(x: real): (r: int)
    ensures -1.0 / 2.0 <= x - r as real <= 1.0 / 2.0
    ensures x - r as real == 1.0 / 2.0 ==> x < 0.0
    ensures x - r as real == -1.0 / 2.0 ==> x > 0.0
  {
    if x >= 0.0 then (x + 1.0 / 2.0).Floor else -((-x + 1.0 / 2.0).Floor)
  }

  /** PHP `round()`: the nearest multiple of one tenth. */
  function Round1(x: real): (r: real)
    ensures -1.0 / 20.0 <= x - r <= 1.0 / 20.0
    ensures Integral(r * 10.0)
  {
    var n := Round(x * 10.0);
    assert (n as real / 10.0) * 10.0 == n as real;
    n as real / 10.0
  }

  // ---------------------------------------------------------------------
  // PHP ordered arrays
  // ---------------------------------------------------------------------

  /** A PHP array: entries in insertion order, each key at most once. */
  type Assoc<K, V> = seq<(K, V)>

  predicate HasKey<K(==), V>(m: Assoc<K, V>, k: K) {
    exists i :: 0 <= i < |m| && m[i].0 == k
  }

  predicate DistinctKeys<K(==), V>(m: Assoc<K, V>) {
    forall i, j :: 0 <= i < j < |m| ==> m[i].0 != m[j].0
  }

  /** The position of the first entry under key `k`. */
  function FirstIndex<K(==), V>(m: Assoc<K, V>, k: K): (i: nat)
    requires HasKey(m, k)
    ensures i < |m| && m[i].0 == k
    ensures forall j :: 0 <= j < i ==> m[j].0 != k
  {
    if m[0].0 == k then 0
    else
      assert HasKey(m[1..], k) by {
        var i :| 0 <= i < |m| && m[i].0 == k;
        assert m[1..][i - 1].0 == k;
      }
      var i := FirstIndex(m[1..], k);
      assert forall j :: 1 <= j < i + 1 ==> m[j] == m[1..][j - 1];
      i + 1
  }

  /** The value stored under a key, if any. */
  function Lookup<K(==), V>(m: Assoc<K, V>, k: K): (r: Option<V>)
    ensures r.None? <==> !HasKey(m, k)
    ensures r.Some? ==> exists i :: 0 <= i < |m| && m[i] == (k, r.value)
  {
    if HasKey(m, k) then Some(m[FirstIndex(m, k)].1) else None
  }

  /** The keys of an array, in order. */
  function KeysOf<K, V>(m: Assoc<K, V>): (r: seq<K>)
    ensures |r| == |m| && forall i :: 0 <= i < |m| ==> r[i] == m[i].0
  {
    seq(|m|, i requires 0 <= i < |m| => m[i].0)
  }

  /**
   * Assignment to a key of a PHP array: an existing key keeps its position and takes the new value,
   * a new key is appended at the end.
   */
  function Put<K(==,!new), V>(m: Assoc<K, V>, k: K, v: V): (r: Assoc<K, V>)
    ensures Lookup(r, k) == Some(v)
    ensures forall k' :: k' != k ==> Lookup(r, k') == Lookup(m, k')
    ensures KeysOf(r) == if HasKey(m, k) then KeysOf(m) else KeysOf(m) + [k]
    ensures DistinctKeys(m) ==> DistinctKeys(r)
    ensures forall i :: 0 <= i < |r| ==> r[i] == (k, v) || r[i] in m
  {
    if HasKey(m, k) then
      var r := m[FirstIndex(m, k) := (k, v)];
      assert forall i :: 0 <= i < |m| ==> r[i].0 == m[i].0;
      SameKeysSameLookup(m, r, k);
      forall k' | k' != k ensures Lookup(r, k') == Lookup(m, k') {
        SameKeysSameLookup(m, r, k');
      }
      assert KeysOf(r) == KeysOf(m);
      r
    else
      var r := m + [(k, v)];
      assert HasKey(r, k) && FirstIndex(r, k) == |m| by {
        assert r[|m|].0 == k;
        assert forall j :: 0 <= j < |m| ==> r[j].0 != k;
      }
      forall k' | k' != k ensures Lookup(r, k') == Lookup(m, k') {
        assert HasKey(r, k') ==> HasKey(m, k') by {
          if HasKey(r, k') {
            var i :| 0 <= i < |r| && r[i].0 == k';
            assert m[i].0 == k';
          }
        }
        if HasKey(m, k') {
          SameFirstIndex(m, r, k');
        }
      }
      assert KeysOf(r) == KeysOf(m) + [k];
      r
  }

  /** Two arrays with the same keys at the same positions look up to the same positions. */
  lemma {:induction false} SameKeysSameLookup<K, V>(m: Assoc<K, V>, r: Assoc<K, V>, k: K)
    requires |m| == |r| && forall i :: 0 <= i < |m| ==> r[i].0 == m[i].0
    ensures HasKey(m, k) <==> HasKey(r, k)
    ensures HasKey(m, k) ==> FirstIndex(m, k) == FirstIndex(r, k)
    ensures HasKey(m, k) && r[FirstIndex(m, k)] == m[FirstIndex(m, k)] ==> Lookup(r, k) == Lookup(m, k)
  {
    if HasKey(m, k) {
      var i :| 0 <= i < |m| && m[i].0 == k;
      assert r[i].0 == k;
      SameFirstIndex(m, r, k);
    } else {
      assert forall i :: 0 <= i < |r| ==> r[i].0 == m[i].0;
    }
  }

  /** Extending an array after its first `k` entry leaves that entry first. */
  lemma {:induction false} SameFirstIndex<K, V>(m: Assoc<K, V>, r: Assoc<K, V>, k: K)
    requires HasKey(m, k) && |m| <= |r| && forall i :: 0 <= i < |m| ==> r[i].0 == m[i].0
    ensures HasKey(r, k) && FirstIndex(r, k) == FirstIndex(m, k)
  {
    var a := FirstIndex(m, k);
    assert r[a].0 == k;
    assert forall j :: 0 <= j < a ==> r[j].0 == m[j].0;

  }


  /**
   * The key an append to a PHP array uses: one more than the largest integer key,
   * or 0 when there is none.
   */
  function NextIndex<V>(m: Assoc<Key, V>): (r: nat)
    ensures forall i :: 0 <= i < |m| && m[i].0.KInt? ==> m[i].0.n < r
  {
    if m == [] then 0
    else
      var rest := NextIndex(m[..|m| - 1]);
      var last := m[|m| - 1].0;
      assert forall i :: 0 <= i < |m| - 1 ==> m[i] == m[..|m| - 1][i];
      if last.KInt? && last.n >= rest then last.n + 1 else rest
  }

  /** An append to a PHP array: a store under the next free integer key, which is always a new key. */
  function Append<V>(m: Assoc<Key, V>, v: V): (r: Assoc<Key, V>)
    ensures !HasKey(m, KInt(NextIndex(m)))
    ensures r == m + [(KInt(NextIndex(m)), v)]
  {
    var k := KInt(NextIndex(m));
    assert forall i :: 0 <= i < |m| ==> m[i].0 != k;
    Put(m, k, v)
  }

  /** The value stored under a key of a Dafny map, if any. */
  function MapGet<K, V>(m: map<K, V>, k: K): Option<V> {
    if k in m then Some(m[k]) else None
  }

  /**
   * PHP array union: every key of either operand, with the left
   * operand's value wherever both have the key.
   */
  function Union<K, V>(a: map<K, V>, b: map<K, V>): (r: map<K, V>)
    ensures r.Keys == a.Keys + b.Keys
    ensures forall k :: k in a ==> r[k] == a[k]
    ensures forall k :: k in b && k !in a ==> r[k] == b[k]
  {
    b + a
  }

  /** The value of the last entry of `es` under key `k`. */
  function LastValue<K(==), V>(es: seq<(K, V)>, k: K): (r: Option<V>)
    ensures r.Some? ==> (k, r.value) in es
    ensures r.None? ==> forall i :: 0 <= i < |es| ==> es[i].0 != k
  {
    if es == [] then None
    else if es[|es| - 1].0 == k then Some(es[|es| - 1].1)
    else
      var r := LastValue(es[..|es| - 1], k);
      assert r.Some? ==> (k, r.value) in es by {
        if r.Some? {
          var i :| 0 <= i < |es| - 1 && es[..|es| - 1][i] == (k, r.value);
          assert es[i] == (k, r.value);
        }
      }
      assert forall i :: 0 <= i < |es| - 1 ==> es[..|es| - 1][i] == es[i];
      r
  }

  /** Assignment of every entry of `es` in turn. */
  function PutAll<K(==,!new), V>(m: Assoc<K, V>, es: seq<(K, V)>): (r: Assoc<K, V>)
    ensures DistinctKeys(m) ==> DistinctKeys(r)
  {
    if es == [] then m else Put(PutAll(m, es[..|es| - 1]), es[|es| - 1].0, es[|es| - 1].1)
  }

  /** One more store at the end of a loop of stores. */
  lemma {:induction false} PutAllSnoc<K(!new), V>(m: Assoc<K, V>, es: seq<(K, V)>, e: (K, V))
    ensures PutAll(m, es + [e]) == Put(PutAll(m, es), e.0, e.1)
  {
    assert (es + [e])[..|es|] == es;
  }

  /** Two loops of stores, one after the other, are one loop over both lists. */
  lemma {:induction false} PutAllAppend<K(!new), V>(m: Assoc<K, V>, a: seq<(K, V)>, b: seq<(K, V)>)
    ensures PutAll(m, a + b) == PutAll(PutAll(m, a), b)
    decreases |b|
  {
    if b == [] {
      assert a + b == a;
    } else {
      assert (a + b)[..|a + b| - 1] == a + b[..|b| - 1];
      PutAllAppend(m, a, b[..|b| - 1]);
    }
  }

  /** After a loop of stores, a key holds the value of its last store, or its old value if it had none. */
  lemma {:induction false} PutAllLookup<K(!new), V>(m: Assoc<K, V>, es: seq<(K, V)>, k: K)
    ensures Lookup(PutAll(m, es), k) == if LastValue(es, k).Some? then LastValue(es, k) else Lookup(m, k)
  {
    if es != [] {
      PutAllLookup(m, es[..|es| - 1], k);
    }
  }

  /** The last store of a concatenation comes from its second half when that half stores the key at all. */
  lemma {:induction false} LastValueAppend<K, V>(a: seq<(K, V)>, b: seq<(K, V)>, k: K)
    ensures LastValue(a + b, k) == if LastValue(b, k).Some? then LastValue(b, k) else LastValue(a, k)
  {
    if b != [] {
      assert (a + b)[..|a + b| - 1] == a + b[..|b| - 1];
      LastValueAppend(a, b[..|b| - 1], k);
    } else {
      assert a + b == a;
    }
  }
}
