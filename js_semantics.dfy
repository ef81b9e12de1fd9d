/** The small part of JavaScript's behaviour that the dashboard's data code
    depends on: `undefined` object properties, the falsy values of strings
    and numbers, `String(...)`, the number parsers, `String.prototype.trim`
    and `Array.prototype.reverse`. */
module JsSemantics {

  datatype Option<+T> = None | Some(value: T)

  /** One CSV row as the CSV parser delivers it with a header line:
      column name to cell text. A column the row lacks is `undefined`. */
  type Row = map<string, string>

  /** `parseFloat` and `parseInt`, left uninterpreted: `None` is NaN. */
  type FloatParser = string -> Option<real>
  type IntParser = string -> Option<int>

  /** `row[column]`, with `None` for `undefined`. */
  function Field(row: Row, column: string): Option<string>
  {
    if column in row then Some(row[column]) else None
  }

  /** `!v` for a value that is a string or `undefined`. */
  predicate Falsy(v: Option<string>)
  {
    v.None? || v.value == ""
  }

  /** `String(v)`: `undefined` becomes the text "undefined". */
  function ToJsString(v: Option<string>): (s: string)
    ensures v.Some? ==> s == v.value
    ensures v.None? ==> s != ""
  {
    match v
    case Some(t) => t
    case None => "undefined"
  }

  /** `parse(v)` where `v` may be `undefined`: parsing `undefined` is NaN. */
  function ParseField<N>(parse: string -> Option<N>, v: Option<string>): Option<N>
  {
    match v
    case Some(t) => parse(t)
    case None => None
  }

  /** `m[key] || null` for an object whose values are numbers other than NaN:
      an absent key and the score 0 both give null. */
  function OrNull(m: map<string, real>, key: string): (r: Option<real>)
    ensures r.Some? <==> key in m && m[key] != 0.0
    ensures r.Some? ==> r.value == m[key]
  {
    if key in m && m[key] != 0.0 then Some(m[key]) else None
  }

  /** `m[key] ?? null`: only an absent key gives null, 0 is kept. */
  function OrNullish(m: map<string, real>, key: string): (r: Option<real>)
    ensures r.Some? <==> key in m
    ensures r.Some? ==> r.value == m[key]
  {
    if key in m then Some(m[key]) else None
  }

  /** The characters `String.prototype.trim` removes: the ECMAScript
      WhiteSpace and LineTerminator code points. */
  predicate IsJsSpace(c: char)
  {
    || c == '\t' || c == '\n' || c == '\U{B}' || c == '\U{C}' || c == '\r'
    || c == ' ' || c == '\U{A0}' || c == '\U{1680}'
    || ('\U{2000}' <= c <= '\U{200A}')
    || c == '\U{2028}' || c == '\U{2029}' || c == '\U{202F}' || c == '\U{205F}'
    || c == '\U{3000}' || c == '\U{FEFF}'
  }

  /** `s` with its leading white space removed. */
  function TrimStart(s: string): (r: string)
    ensures |r| <= |s| && r == s[|s| - |r|..]
    ensures forall k :: 0 <= k < |s| - |r| ==> IsJsSpace(s[k])
    ensures r != [] ==> !IsJsSpace(r[0])
  {
    if s == [] || !IsJsSpace(s[0]) then s else TrimStart(s[1..])
  }

  /** `s` with its trailing white space removed. */
  function TrimEnd(s: string): (r: string)
    ensures |r| <= |s| && r == s[..|r|]
    ensures forall k :: |r| <= k < |s| ==> IsJsSpace(s[k])
    ensures r != [] ==> !IsJsSpace(r[|r| - 1])
  {
    if s == [] || !IsJsSpace(s[|s| - 1]) then s else TrimEnd(s[..|s| - 1])
  }

  /** `s.trim()`: `s` with white space removed from both ends. */
  function Trim(s: string): (r: string)
    ensures |r| <= |s|
    ensures r != [] ==> !IsJsSpace(r[0]) && !IsJsSpace(r[|r| - 1])
  {
    TrimEnd(TrimStart(s))
  }

  /** What `trim` keeps is a slice of `s`, and everything it cuts off on
      either side is white space: it is the longest slice of `s` that neither
      starts nor ends with white space. */
  lemma TrimCutsOnlySpace(s: string) returns (i: nat, j: nat)
    ensures i <= j <= |s| && Trim(s) == s[i..j]
    ensures forall k :: 0 <= k < i ==> IsJsSpace(s[k])
    ensures forall k :: j <= k < |s| ==> IsJsSpace(s[k])
  {
    var t := TrimStart(s);
    var r := TrimEnd(t);
    i, j := |s| - |t|, |s| - |t| + |r|;
    assert t == s[i..];
    assert r == t[..|r|];
    assert t[..|r|] == s[i..j];
    SpaceAfter(s, i, |r|);
  }

  /** White space from position `n` of the suffix `s[i..]` on is white space
      from position `i + n` of `s` on. */
  lemma SpaceAfter(s: string, i: nat, n: nat)
    requires i + n <= |s|
    requires forall m :: n <= m < |s| - i ==> IsJsSpace(s[i..][m])
    ensures forall k :: i + n <= k < |s| ==> IsJsSpace(s[k])
  {
    forall k | i + n <= k < |s|
      ensures IsJsSpace(s[k])
    {
      assert s[k] == s[i..][k - i];
    }
  }

  /** Trimming an already trimmed name changes nothing. */
  lemma TrimIdempotent(s: string)
    ensures Trim(Trim(s)) == Trim(s)
  {
    var r := Trim(s);
    assert r == [] || !IsJsSpace(r[0]);
    assert TrimStart(r) == r;
    assert r == [] || !IsJsSpace(r[|r| - 1]);
    assert TrimEnd(r) == r;
  }

  /** `Array.prototype.reverse` on a fresh array. */
  function Reversed<T>(s: seq<T>): (r: seq<T>)
    ensures |r| == |s|
    ensures forall i :: 0 <= i < |s| ==> r[i] == s[|s| - 1 - i]
  {
    if s == [] then [] else [s[|s| - 1]] + Reversed(s[..|s| - 1])
  }

  /** Reversing twice gives the original order back. */
  lemma ReversedTwice<T>(s: seq<T>)
    ensures Reversed(Reversed(s)) == s
  {
    var r := Reversed(Reversed(s));
    assert forall i :: 0 <= i < |s| ==> r[i] == s[i];
  }

  /** The object built by the assignments `obj[key] = value` of `writes`,
      carried out in order on an empty object; `None` is a skipped write. */
  function AssignAll<K(==), V>(writes: seq<Option<(K, V)>>): map<K, V>
    decreases |writes|
  {
    if writes == [] then map[]
    else Assign(AssignAll(writes[..|writes| - 1]), writes[|writes| - 1])
  }

  /** One assignment `obj[key] = value`, or nothing for `None`. */
  function Assign<K(==), V>(obj: map<K, V>, w: Option<(K, V)>): map<K, V>
  {
    match w
    case None => obj
    case Some(kv) => obj[kv.0 := kv.1]
  }

  /** Write `w` assigns to key `k`. */
  predicate WritesKey<K(==), V>(w: Option<(K, V)>, k: K)
  {
    w.Some? && w.value.0 == k
  }

  /** Write `i` is the last of `writes` that assigns to `k`. */
  predicate LastWrite<K(==), V>(writes: seq<Option<(K, V)>>, k: K, i: int)
  {
    && 0 <= i < |writes| && WritesKey(writes[i], k)
    && forall j :: i < j < |writes| ==> !WritesKey(writes[j], k)
  }

  /** The object has key `k` exactly when some write assigns to `k`. */
  lemma {:induction false} AssignAllHasKey<K, V>(writes: seq<Option<(K, V)>>, k: K)
    ensures k in AssignAll(writes) <==> exists i :: 0 <= i < |writes| && WritesKey(writes[i], k)
    decreases |writes|
  {
    if writes != [] {
      var n := |writes|;
      var p := writes[..n - 1];
      AssignAllHasKey(p, k);
      if !WritesKey(writes[n - 1], k) {
        if k in AssignAll(p) {
          var i :| 0 <= i < n - 1 && WritesKey(p[i], k);
          assert p[i] == writes[i];
        }
        forall i | 0 <= i < n - 1 && WritesKey(writes[i], k)
          ensures k in AssignAll(p)
        {
          assert p[i] == writes[i];
        }
      }
    }
  }

  /** The value under `k` is that of the last write to `k`: later writes overwrite earlier ones. */
  lemma {:induction false} AssignAllLastWins<K, V>(writes: seq<Option<(K, V)>>, k: K)
    requires k in AssignAll(writes)
    ensures exists i :: LastWrite(writes, k, i) && AssignAll(writes)[k] == writes[i].value.1
    decreases |writes|
  {
    var n := |writes|;
    var p := writes[..n - 1];
    if WritesKey(writes[n - 1], k) {
      assert LastWrite(writes, k, n - 1);
    } else {
      AssignAllLastWins(p, k);
      var i :| LastWrite(p, k, i) && AssignAll(p)[k] == p[i].value.1;
      assert forall j :: 0 <= j < n - 1 ==> p[j] == writes[j];
      assert LastWrite(writes, k, i);
    }
  }
}
