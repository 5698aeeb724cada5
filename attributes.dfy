/** The attribute reconciler `extract_first`: the first candidate field of a
    matched polygon's attribute record whose value is not blank. */
module Attributes {
  import opened Wrappers

  /** One decoded JSON attribute value. */
  datatype Value = Null | Bool(b: bool) | Num(n: real) | Str(s: string) | Other

  /** A polygon's attribute record, keyed by field name. */
  type Record = map<string, Value>

  /** `dict.get(key)`: a missing field reads as null. */
  function Get(attrs: Record, key: string): Value {
    if key in attrs then attrs[key] else Null
  }

  /** Blank means exactly null, "" or " "; any other string, including other
      whitespace-only strings, is a real value. */
  predicate IsBlank(v: Value) {
    v == Null || v == Str("") || v == Str(" ")
  }

  /** The field `key` is present with a non-blank value. */
  predicate Usable(attrs: Record, key: string) {
    !IsBlank(Get(attrs, key))
  }

  /** The value of the earliest usable field among `keys`, if any. */
  function FirstUsable(attrs: Record, keys: seq<string>): (r: Option<Value>)
    ensures r.Some? ==> !IsBlank(r.value)
    ensures r.Some? ==> exists i :: 0 <= i < |keys| && Get(attrs, keys[i]) == r.value
    decreases |keys|
  {
    if |keys| == 0 then None
    else if Usable(attrs, keys[0]) then Some(Get(attrs, keys[0]))
    else
      var r := FirstUsable(attrs, keys[1..]);
      assert r.Some? ==> exists i :: 0 <= i < |keys| - 1 && Get(attrs, keys[1..][i]) == r.value;
      assert forall i :: 0 <= i < |keys| - 1 ==> keys[1..][i] == keys[i + 1];
      r
  }

  /** What `extract_first` returns for a possibly absent record. */
  function Reconcile(attrs: Option<Record>, keys: seq<string>): (r: Option<Value>)
    ensures attrs.None? ==> r == None
    ensures r.Some? ==> !IsBlank(r.value)
    ensures r.Some? ==> exists i :: 0 <= i < |keys| && Get(attrs.value, keys[i]) == r.value
  {
    match attrs
    case None => None
    case Some(m) => FirstUsable(m, keys)
  }

  /** `keys[i]` is usable and no earlier candidate is. */
  ghost predicate IsFirstUsableAt(attrs: Record, keys: seq<string>, i: int) {
    && 0 <= i < |keys|
    && Usable(attrs, keys[i])
    && forall j :: 0 <= j < i ==> !Usable(attrs, keys[j])
  }

  /** extract_first: the search over the candidate keys, in order, stopping at
      the first usable one. An absent or empty record yields nothing. */
  method ExtractFirst(attrs: Option<Record>, keys: seq<string>) returns (r: Option<Value>)
    ensures attrs.None? || attrs == Some(map[]) ==> r == None
    ensures r == Reconcile(attrs, keys)
  {
    if attrs.None? || attrs.value == map[] {
      EmptyRecordHasNoUsableField(keys);
      return None;
    }
    var m := attrs.value;
    var i := 0;
    while i < |keys|
      invariant 0 <= i <= |keys|
      invariant FirstUsable(m, keys) == FirstUsable(m, keys[i..])
    {
      var v := Get(m, keys[i]);
      if !IsBlank(v) {
        return Some(v);
      }
      assert keys[i..][1..] == keys[i + 1..];
      i := i + 1;
    }
    return None;
  }

  /** An empty record has no usable field, whatever the candidates: it
      follows from `FirstUsable`'s contract, since every field reads as null. */
  lemma EmptyRecordHasNoUsableField(keys: seq<string>)
    ensures FirstUsable(map[], keys) == None
  {
  }

  /** The result is the value at the earliest usable candidate. */
  lemma {:induction false} FirstUsableIsEarliest(attrs: Record, keys: seq<string>, i: int)
    requires IsFirstUsableAt(attrs, keys, i)
    ensures FirstUsable(attrs, keys) == Some(Get(attrs, keys[i]))
    decreases i
  {
    if i > 0 {
      assert !Usable(attrs, keys[0]);
      forall j | 0 <= j < i - 1
        ensures !Usable(attrs, keys[1..][j])
      {
        assert keys[1..][j] == keys[j + 1];
      }
      FirstUsableIsEarliest(attrs, keys[1..], i - 1);
    }
  }

  /** Nothing is found exactly when no candidate is usable (in particular for
      an empty candidate list or candidates missing from the record). */
  lemma {:induction false} FirstUsableNoneIff(attrs: Record, keys: seq<string>)
    ensures FirstUsable(attrs, keys) == None <==> forall i :: 0 <= i < |keys| ==> !Usable(attrs, keys[i])
    decreases |keys|
  {
    if |keys| > 0 {
      FirstUsableNoneIff(attrs, keys[1..]);
      assert forall i :: 0 < i < |keys| ==> keys[i] == keys[1..][i - 1];
    }
  }

  /** Whenever something is found, it sits at the earliest usable candidate. */
  lemma {:induction false} FirstUsableFoundAtEarliest(attrs: Record, keys: seq<string>)
    requires FirstUsable(attrs, keys).Some?
    ensures exists i :: IsFirstUsableAt(attrs, keys, i) && FirstUsable(attrs, keys) == Some(Get(attrs, keys[i]))
    decreases |keys|
  {
    if !Usable(attrs, keys[0]) {
      var rest := keys[1..];
      FirstUsableFoundAtEarliest(attrs, rest);
      var i :| IsFirstUsableAt(attrs, rest, i) && FirstUsable(attrs, rest) == Some(Get(attrs, rest[i]));
      assert keys[i + 1] == rest[i];
      forall j | 0 <= j < i + 1
        ensures !Usable(attrs, keys[j])
      {
        if j > 0 {
          assert keys[j] == rest[j - 1];
        }
      }
      assert IsFirstUsableAt(attrs, keys, i + 1);
    } else {
      assert IsFirstUsableAt(attrs, keys, 0);
    }
  }

  /** The result is `v` exactly when `v` is the value at the earliest usable
      candidate. */
  lemma FirstUsableSomeIff(attrs: Record, keys: seq<string>, v: Value)
    ensures FirstUsable(attrs, keys) == Some(v) <==>
            exists i :: IsFirstUsableAt(attrs, keys, i) && Get(attrs, keys[i]) == v
  {
    if FirstUsable(attrs, keys) == Some(v) {
      FirstUsableFoundAtEarliest(attrs, keys);
    }
    if exists i :: IsFirstUsableAt(attrs, keys, i) && Get(attrs, keys[i]) == v {
      var i :| IsFirstUsableAt(attrs, keys, i) && Get(attrs, keys[i]) == v;
      FirstUsableIsEarliest(attrs, keys, i);
    }
  }

  /** Once a candidate qualifies, the candidates after it are never consulted. */
  lemma LaterKeysNotConsulted(attrs: Record, keys: seq<string>, i: int, others: seq<string>)
    requires IsFirstUsableAt(attrs, keys, i)
    ensures FirstUsable(attrs, keys[..i + 1] + others) == FirstUsable(attrs, keys)
  {
    var keys' := keys[..i + 1] + others;
    assert forall j :: 0 <= j <= i ==> keys'[j] == keys[j];
    assert IsFirstUsableAt(attrs, keys', i);
    FirstUsableIsEarliest(attrs, keys, i);
    FirstUsableIsEarliest(attrs, keys', i);
  }

  /** Only the candidate fields are read: records that agree on them agree on
      the result. */
  lemma {:induction false} OnlyCandidateFieldsRead(a: Record, b: Record, keys: seq<string>)
    requires forall i :: 0 <= i < |keys| ==> Get(a, keys[i]) == Get(b, keys[i])
    ensures FirstUsable(a, keys) == FirstUsable(b, keys)
    decreases |keys|
  {
    if |keys| > 0 {
      assert Get(a, keys[0]) == Get(b, keys[0]);
      assert forall i :: 0 <= i < |keys| - 1 ==> keys[1..][i] == keys[i + 1];
      OnlyCandidateFieldsRead(a, b, keys[1..]);
    }
  }

  /** Worked cases: first match wins, blanks are skipped, and whitespace other
      than a single space is a real value. */
  lemma ReconcilerExamples()
    ensures FirstUsable(map["POLYGON_NM" := Str("Alameda")], ["County", "POLYGON_NM"]) == Some(Str("Alameda"))
    ensures FirstUsable(map["County" := Str("Kern"), "POLYGON_NM" := Str("X")], ["County", "POLYGON_NM"]) == Some(Str("Kern"))
    ensures FirstUsable(map["County" := Str(""), "POLYGON_NM" := Str("Placer")], ["County", "POLYGON_NM"]) == Some(Str("Placer"))
    ensures FirstUsable(map["County" := Str(" "), "POLYGON_NM" := Null], ["County", "POLYGON_NM"]) == None
    ensures FirstUsable(map["NAME" := Str("  ")], ["NAME"]) == Some(Str("  "))
    ensures FirstUsable(map["NAME" := Str("\t")], ["NAME"]) == Some(Str("\t"))
    ensures FirstUsable(map["NAME" := Num(0.0)], ["NAME"]) == Some(Num(0.0))
  {
  }
}
