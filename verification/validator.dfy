/**
 The validator: an accumulator of field-keyed failure messages, plus the
 list predicates validation rules are written with. Its Go source is not
 part of this model; the behaviour here is the one its table-driven tests
 fix. When a key already holds a message, a later failure under the same key
 keeps the first message.
 */
module Validation {

  datatype Validator = Validator(errors: map<string, string>)

  /** Every failure recorded in `v` is still in `r`, with the same message. */
  ghost predicate Extends(v: Validator, r: Validator) {
    forall k :: k in v.errors ==> k in r.errors && r.errors[k] == v.errors[k]
  }

  /** `New()`: a validator with no failures. */
  function New(): (v: Validator)
    ensures Valid(v)
    ensures forall k :: k !in v.errors
  {
    Validator(map[])
  }

  /** `Valid()`: no failure has been recorded. */
  function Valid(v: Validator): (r: bool)
    ensures r <==> |v.errors| == 0
  {
    v.errors == map[]
  }

  /** `AddError(key, message)`: records `message` under `key` unless the key already failed. */
  function AddError(v: Validator, key: string, message: string): (r: Validator)
    ensures key in r.errors && !Valid(r)
    ensures forall k :: k in r.errors <==> k in v.errors || k == key
    ensures Extends(v, r)
    ensures key !in v.errors ==> r.errors[key] == message
  {
    if key in v.errors then v else Validator(v.errors[key := message])
  }

  /** `Check(ok, key, message)`: records a failure exactly when the condition does not hold. */
  function Check(v: Validator, ok: bool, key: string, message: string): (r: Validator)
    ensures ok ==> r == v
    ensures !ok ==> forall k :: k in r.errors <==> k in v.errors || k == key
    ensures !ok && key !in v.errors ==> r.errors[key] == message
    ensures Extends(v, r)
  {
    if ok then v else AddError(v, key, message)
  }

  /** `In(value, list...)`: the value occurs in the list. */
  function In(value: string, list: seq<string>): (r: bool)
    ensures r <==> exists i :: 0 <= i < |list| && list[i] == value
  {
    if |list| == 0 then false
    else if list[0] == value then true
    else
      var r := In(value, list[1..]);
      assert r ==> exists i :: 1 <= i < |list| && list[i] == value;
      r
  }

  /** No two positions of `s` hold equal elements. */
  ghost predicate NoRepeats(s: seq<string>) {
    forall i, j :: 0 <= i < j < |s| ==> s[i] != s[j]
  }

  /** `Unique(values)`: no value occurs twice, adjacent or not. */
  method Unique(values: seq<string>) returns (r: bool)
    ensures r <==> NoRepeats(values)
  {
    var seen: set<string> := {};
    var i := 0;
    while i < |values|
      invariant 0 <= i <= |values|
      invariant seen == set j | 0 <= j < i :: values[j]
      invariant NoRepeats(values[..i])
    {
      if values[i] in seen {
        var j :| 0 <= j < i && values[j] == values[i];
        assert !NoRepeats(values) by {
          assert values[j] == values[i];
        }
        return false;
      }
      assert forall j :: 0 <= j < i ==> values[j] != values[i];
      assert values[..i + 1] == values[..i] + [values[i]];
      seen := seen + {values[i]};
      i := i + 1;
    }
    assert values[..i] == values;
    return true;
  }

  /** The scenarios of the validator's table-driven test, one per row. */
  lemma TableScenarios()
    ensures Valid(New())
    ensures var v := AddError(AddError(New(), "key1", "message1"), "key2", "message2");
      v.errors == map["key1" := "message1", "key2" := "message2"] && !Valid(v)
    ensures var v := AddError(AddError(New(), "key1", "message1"), "key2", "message2");
      Check(v, true, "key3", "message3") == v
    ensures var v := Check(Check(New(), false, "key1", "message1"), false, "key2", "message2");
      v.errors == map["key1" := "message1", "key2" := "message2"] && !Valid(v)
  {
  }

  /** The rows of the `In` test: a value in the middle of the list, a missing value, an empty list. */
  lemma InScenarios()
    ensures In("apple", ["orange", "apple", "banana"])
    ensures !In("grape", ["orange", "apple", "banana"])
    ensures !In("apple", [])
  {
  }

  /** The rows of the `Unique` test, including repeats that are not adjacent and repeated empty strings. */
  lemma UniqueScenarios()
    ensures NoRepeats(["apple", "banana", "orange"])
    ensures !NoRepeats(["apple", "banana", "banana"])
    ensures !NoRepeats(["", ""])
    ensures !NoRepeats(["apple", "banana", "orange", "apple"])
    ensures NoRepeats([])
  {
    var s := ["apple", "banana", "banana"];
    assert s[1] == s[2];
    var e: seq<string> := ["", ""];
    assert e[0] == e[1];
    var t := ["apple", "banana", "orange", "apple"];
    assert t[0] == t[3];
  }
}
