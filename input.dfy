/**
 * The request input as the notification closure sees it (Input::all()) and
 * the redaction applied to it before it is serialised into the mail.
 * A PHP array is an ordered dictionary: assigning to an existing key
 * overwrites that entry where it stands, assigning to a new key appends it.
 * The model keeps that order with a sequence of key/value entries.
 */
module RequestInput {
  import opened Wrappers

  /** An input value: a string, a number or boolean from a JSON body, null, or a nested array. */
  datatype Value =
    | Text(text: string)
    | Number(number: int)
    | Flag(flag: bool)
    | Null
    | Nested(entries: seq<Entry>)

  datatype Entry = Entry(key: string, value: Value)

  const PasswordKey := "password"
  const ConfirmationKey := "password_confirmation"
  /** The marker written over both password fields. */
  const Hidden := "hidden-secret"

  /** The array has an entry with key k (array_has on a key without dots). */
  predicate HasKey(a: seq<Entry>, k: string) {
    exists i :: 0 <= i < |a| && a[i].key == k
  }

  function Keys(a: seq<Entry>): set<string> {
    set i | 0 <= i < |a| :: a[i].key
  }

  /** Every key occurs once, as in any PHP array. */
  ghost predicate DistinctKeys(a: seq<Entry>) {
    forall i, j :: 0 <= i < j < |a| ==> a[i].key != a[j].key
  }

  /** $a[k], when the key exists. */
  function Lookup(a: seq<Entry>, k: string): (r: Option<Value>)
    ensures r.Some? <==> HasKey(a, k)
  {
    if a == [] then None
    else if a[0].key == k then Some(a[0].value)
    else
      assert forall i :: 0 <= i < |a| - 1 ==> a[1..][i] == a[i + 1];
      Lookup(a[1..], k)
  }

  lemma LookupCons(e: Entry, s: seq<Entry>, j: string)
    ensures Lookup([e] + s, j) == if e.key == j then Some(e.value) else Lookup(s, j)
  {
  }

  /** In an array with unique keys, looking up an entry's key finds that entry's value. */
  lemma {:induction false} LookupAt(a: seq<Entry>, i: int)
    requires DistinctKeys(a) && 0 <= i < |a|
    ensures Lookup(a, a[i].key) == Some(a[i].value)
  {
    if i > 0 {
      assert a[0].key != a[i].key;
      assert a[1..][i - 1] == a[i];
      LookupAt(a[1..], i - 1);
    }
  }

  /** $a[k] = v: overwrite the entry for k in place, or append a new one. */
  function Put(a: seq<Entry>, k: string, v: Value): (r: seq<Entry>)
    ensures Lookup(r, k) == Some(v)
    ensures forall j :: j != k ==> Lookup(r, j) == Lookup(a, j)
    // an existing key keeps its position and every other entry is untouched
    ensures HasKey(a, k) ==>
      |r| == |a| && forall i :: 0 <= i < |a| ==> r[i].key == a[i].key && (a[i].key != k ==> r[i] == a[i])
    ensures !HasKey(a, k) ==> r == a + [Entry(k, v)]
  {
    if a == [] then [Entry(k, v)]
    else if a[0].key == k then
      [Entry(k, v)] + a[1..]
    else
      var rest := Put(a[1..], k, v);
      assert HasKey(a, k) ==> HasKey(a[1..], k);
      assert a == [a[0]] + a[1..];
      forall j ensures Lookup([a[0]] + rest, j) == if a[0].key == j then Some(a[0].value) else Lookup(rest, j) {
        LookupCons(a[0], rest, j);
      }
      [a[0]] + rest
  }

  /** $a[k] = v adds k to the keys and no other. */
  lemma PutKeys(a: seq<Entry>, k: string, v: Value)
    ensures Keys(Put(a, k, v)) == Keys(a) + {k}
  {
    var r := Put(a, k, v);
    if HasKey(a, k) {
      forall j | j in Keys(r) ensures j in Keys(a) {
        var i :| 0 <= i < |r| && r[i].key == j;
        assert a[i].key == j;
      }
      forall j | j in Keys(a) ensures j in Keys(r) {
        var i :| 0 <= i < |a| && a[i].key == j;
        assert r[i].key == j;
      }
    } else {
      forall j | j in Keys(r) ensures j in Keys(a) + {k} {
        var i :| 0 <= i < |r| && r[i].key == j;
        if i < |a| { assert a[i].key == j; }
      }
      forall j | j in Keys(a) ensures j in Keys(r) {
        var i :| 0 <= i < |a| && a[i].key == j;
        assert r[i].key == j;
      }
      assert r[|a|].key == k;
    }
  }

  /** $a[k] = v keeps the keys of a PHP array unique. */
  lemma PutKeepsDistinct(a: seq<Entry>, k: string, v: Value)
    ensures DistinctKeys(a) ==> DistinctKeys(Put(a, k, v))
  {
  }

  /** Writing the value a key already holds changes nothing. */
  lemma {:induction false} PutSame(a: seq<Entry>, k: string, v: Value)
    requires Lookup(a, k) == Some(v)
    ensures Put(a, k, v) == a
  {
    if a[0].key != k {
      PutSame(a[1..], k, v);
      assert a == [a[0]] + a[1..];
    } else {
      assert a == [Entry(k, v)] + a[1..];
    }
  }

  /**
   * The redaction of the closure: when a password is present, both the
   * password and its confirmation are replaced by the marker, the
   * confirmation being added if it was absent. Nothing else is touched.
   */
  function Redact(a: seq<Entry>): (r: seq<Entry>)
    ensures HasKey(a, PasswordKey) ==>
      Lookup(r, PasswordKey) == Some(Text(Hidden)) && Lookup(r, ConfirmationKey) == Some(Text(Hidden))
    ensures HasKey(a, PasswordKey) ==> Keys(r) == Keys(a) + {ConfirmationKey}
    ensures forall k :: k != PasswordKey && k != ConfirmationKey ==> Lookup(r, k) == Lookup(a, k)
    // without a password, a lone confirmation is left as it is
    ensures !HasKey(a, PasswordKey) ==> r == a
    // the existing entries keep their order; only the confirmation may be appended
    ensures |a| <= |r| <= |a| + 1
    ensures forall i :: 0 <= i < |a| ==> r[i].key == a[i].key
    ensures DistinctKeys(a) ==> DistinctKeys(r)
  {
    if HasKey(a, PasswordKey) then
      var hidden := Put(a, PasswordKey, Text(Hidden));
      PutKeys(a, PasswordKey, Text(Hidden));
      PutKeys(hidden, ConfirmationKey, Text(Hidden));
      PutKeepsDistinct(a, PasswordKey, Text(Hidden));
      PutKeepsDistinct(hidden, ConfirmationKey, Text(Hidden));
      Put(hidden, ConfirmationKey, Text(Hidden))
    else
      a
  }

  /**
   * In a PHP array (unique keys) with a password, every entry that the
   * serialiser receives under either password key holds the marker.
   */
  lemma RedactHidesEveryEntry(a: seq<Entry>)
    requires DistinctKeys(a) && HasKey(a, PasswordKey)
    ensures forall i :: 0 <= i < |Redact(a)| && (Redact(a)[i].key == PasswordKey || Redact(a)[i].key == ConfirmationKey) ==>
      Redact(a)[i].value == Text(Hidden)
  {
    var r := Redact(a);
    forall i | 0 <= i < |r| && (r[i].key == PasswordKey || r[i].key == ConfirmationKey)
      ensures r[i].value == Text(Hidden)
    {
      LookupAt(r, i);
    }
  }

  /** The redaction is idempotent: redacting twice hides nothing more. */
  lemma RedactIdempotent(a: seq<Entry>)
    ensures Redact(Redact(a)) == Redact(a)
  {
    if HasKey(a, PasswordKey) {
      var r := Redact(a);
      PutSame(r, PasswordKey, Text(Hidden));
      PutSame(r, ConfirmationKey, Text(Hidden));
    }
  }

  /**
   * Lines 109-118 of the closure: empty input becomes the empty string;
   * otherwise the input, redacted in place, is serialised with encode
   * (json_encode, whose code is not part of this model).
   */
  method SerializeInput(all: seq<Entry>, encode: seq<Entry> -> string) returns (input: string)
    requires DistinctKeys(all)
    ensures all == [] ==> input == ""
    ensures all != [] ==> input == encode(Redact(all))
  {
    if all != [] {
      var bag := all;
      if HasKey(bag, PasswordKey) {
        bag := Put(bag, PasswordKey, Text(Hidden));
        bag := Put(bag, ConfirmationKey, Text(Hidden));
      }
      input := encode(bag);
    } else {
      input := "";
    }
  }
}
