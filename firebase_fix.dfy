/** `fix_structure` and `array_to_object`: rewrite a parsed JSON value into the
    shape the Firebase Realtime Database accepts. Arrays become objects keyed by
    index (dropping `null` elements), object keys are sanitised, and every `\`
    in a string value becomes `/`. */
module FirebaseFix {
  import opened JsonValue
  import opened PyStr
  import opened PyDict
  import opened KeySanitizer

  // ---------------------------------------------------------------------
  // What the functions return: the dict each loop builds is `FromPairs` of
  // the (key, value) pairs the loop stores, in the order it stores them

  /** The value `fix_structure(data)` returns. */
  function Fixed(data: Json): Json
    decreases data, 1
  {
    match data
    case JArr(items) => JObj(FromPairs(ArrayMembers(items, |items|)))
    case JObj(fields) => JObj(FromPairs(ObjectMembers(fields, |fields|)))
    case JStr(s) => JStr(ReplaceChar(s, '\\', '/'))
    case _ => data
  }

  /** The pairs `array_to_object` stores while its loop sees the first `n`
      elements: `null` elements are skipped, every other element is stored,
      fixed, under `str(idx)`. */
  function ArrayMembers(items: seq<Json>, n: nat): seq<(string, Json)>
    requires n <= |items|
    decreases items, n
  {
    if n == 0 then []
    else
      ArrayMembers(items, n - 1)
      + (if items[n - 1].JNull? then [] else [(NatToDecimal(n - 1), Fixed(items[n - 1]))])
  }

  /** The pairs `fix_structure` stores into `new_dict` while its loop sees the
      first `n` members of an object: each member's value, fixed, under its
      sanitised key. */
  function ObjectMembers(fields: seq<(string, Json)>, n: nat): seq<(string, Json)>
    requires n <= |fields|
    decreases fields, n
  {
    if n == 0 then []
    else
      var member := fields[n - 1];
      assert fields decreases to member;
      assert member decreases to member.1;
      ObjectMembers(fields, n - 1) + [(SanitizeKey(member.0), Fixed(member.1))]
  }

  // ---------------------------------------------------------------------
  // The functions as the source writes them: recursion, and loops that fill a
  // fresh dict

  /** `fix_structure(data)`. */
  method FixStructure(data: Json) returns (r: Json)
    ensures r == Fixed(data)
    decreases data, 1
  {
    if data.JArr? {
      r := ArrayToObject(data.items);
      return;
    }
    if data.JObj? {
      var fields := data.fields;
      var newDict: Dict<Json> := [];
      for i := 0 to |fields|
        invariant newDict == FromPairs(ObjectMembers(fields, i))
      {
        var (k, v) := fields[i];
        assert fields decreases to fields[i];
        assert fields[i] decreases to v;
        var safeKey := SanitizeKey(k);
        var fixedValue := FixStructure(v);
        FromPairsSnoc(ObjectMembers(fields, i), safeKey, fixedValue);
        newDict := Put(newDict, safeKey, fixedValue);
      }
      return JObj(newDict);
    }
    if data.JStr? {
      return JStr(ReplaceChar(data.s, '\\', '/'));
    }
    return data;
  }

  /** `array_to_object(arr)`. */
  method ArrayToObject(arr: seq<Json>) returns (r: Json)
    ensures r == Fixed(JArr(arr))
    decreases arr, 0
  {
    var result: Dict<Json> := [];
    for idx := 0 to |arr|
      invariant result == FromPairs(ArrayMembers(arr, idx))
    {
      if arr[idx].JNull? {
        assert ArrayMembers(arr, idx + 1) == ArrayMembers(arr, idx) + [];
        assert ArrayMembers(arr, idx) + [] == ArrayMembers(arr, idx);
        continue;
      }
      var fixedItem := FixStructure(arr[idx]);
      assert ArrayMembers(arr, idx + 1) == ArrayMembers(arr, idx) + [(NatToDecimal(idx), fixedItem)];
      FromPairsSnoc(ArrayMembers(arr, idx), NatToDecimal(idx), fixedItem);
      result := Put(result, NatToDecimal(idx), fixedItem);
    }
    r := JObj(result);
  }

  // ---------------------------------------------------------------------
  // The shape of the output

  /** What Firebase accepts: no arrays at any depth, every object key nonempty
      and made of `[A-Za-z0-9_]`, no key twice in one object, and no `\` in any
      string value. */
  predicate FirebaseReady(j: Json) {
    match j
    case JArr(_) => false
    case JStr(s) => '\\' !in s
    case JObj(fields) =>
      && UniqueKeys(fields)
      && forall i :: 0 <= i < |fields| ==> IsSafeKey(fields[i].0) && FirebaseReady(fields[i].1)
    case _ => true
  }

  /** Pairs with safe keys and Firebase-ready values. */
  predicate ReadyPairs(pairs: seq<(string, Json)>) {
    forall i :: 0 <= i < |pairs| ==> IsSafeKey(pairs[i].0) && FirebaseReady(pairs[i].1)
  }

  /** Storing such pairs one by one into a fresh dict gives a Firebase-ready object. */
  lemma DictOfReadyPairs(pairs: seq<(string, Json)>)
    requires ReadyPairs(pairs)
    ensures FirebaseReady(JObj(FromPairs(pairs)))
  {
    FromPairsKeys(pairs);
    FromPairsEntries(pairs);
  }

  /** Whatever goes in, `fix_structure` returns a Firebase-ready value. */
  lemma {:induction false} FixedIsReady(j: Json)
    ensures FirebaseReady(Fixed(j))
    decreases j, 1
  {
    match j
    case JArr(items) =>
      ArrayMembersReady(items, |items|);
      DictOfReadyPairs(ArrayMembers(items, |items|));
    case JObj(fields) =>
      ObjectMembersReady(fields, |fields|);
      DictOfReadyPairs(ObjectMembers(fields, |fields|));
    case JStr(s) =>
      ReplaceCharSpec(s, '\\', '/');
    case _ =>
  }

  lemma {:induction false} ArrayMembersReady(items: seq<Json>, n: nat)
    requires n <= |items|
    ensures ReadyPairs(ArrayMembers(items, n))
    decreases items, n
  {
    if n > 0 {
      ArrayMembersReady(items, n - 1);
      if !items[n - 1].JNull? {
        FixedIsReady(items[n - 1]);
        assert IsSafeKey(NatToDecimal(n - 1));
      }
    }
  }

  lemma {:induction false} ObjectMembersReady(fields: seq<(string, Json)>, n: nat)
    requires n <= |fields|
    ensures ReadyPairs(ObjectMembers(fields, n))
    decreases fields, n
  {
    if n > 0 {
      var v := fields[n - 1].1;
      assert fields decreases to fields[n - 1];
      assert fields[n - 1] decreases to v;
      ObjectMembersReady(fields, n - 1);
      FixedIsReady(v);
    }
  }

  /** A value that is already Firebase-ready passes through `fix_structure`
      unchanged. */
  lemma {:induction false} ReadyIsFixed(j: Json)
    requires FirebaseReady(j)
    ensures Fixed(j) == j
    decreases j, 1
  {
    match j
    case JObj(fields) =>
      ReadyMembersFixed(fields, |fields|);
      assert fields[..|fields|] == fields;
      FromPairsDistinct(fields);
    case JStr(s) =>
      ReplaceCharSpec(s, '\\', '/');
      assert ReplaceChar(s, '\\', '/') == s;
    case _ =>
  }

  lemma {:induction false} ReadyMembersFixed(fields: seq<(string, Json)>, n: nat)
    requires n <= |fields|
    requires FirebaseReady(JObj(fields))
    ensures ObjectMembers(fields, n) == fields[..n]
    decreases fields, n
  {
    if n > 0 {
      var (k, v) := fields[n - 1];
      assert fields decreases to fields[n - 1];
      assert fields[n - 1] decreases to v;
      ReadyMembersFixed(fields, n - 1);
      SafeKeyUnchanged(k);
      ReadyIsFixed(v);
      assert fields[..n] == fields[..n - 1] + [(k, v)];
    }
  }

  /** Applying `fix_structure` twice gives the same as applying it once. */
  lemma FixStructureIdempotent(j: Json)
    ensures Fixed(Fixed(j)) == Fixed(j)
  {
    FixedIsReady(j);
    ReadyIsFixed(Fixed(j));
  }

  /** String values: every `\` becomes `/`, every other character stays where it is. */
  lemma FixedString(s: string)
    ensures Fixed(JStr(s)).JStr?
    ensures |Fixed(JStr(s)).s| == |s|
    ensures forall i :: 0 <= i < |s| ==> Fixed(JStr(s)).s[i] == if s[i] == '\\' then '/' else s[i]
  {
    ReplaceCharSpec(s, '\\', '/');
  }

  /** Numbers, booleans and `null` come back unchanged. */
  lemma FixedScalar(j: Json)
    requires j.JNull? || j.JBool? || j.JNum?
    ensures Fixed(j) == j
  {
  }

  // ---------------------------------------------------------------------
  // Arrays

  /** `k` is `str(i)` for one of the first `n` indices. */
  predicate IsIndexKey(k: string, n: nat) {
    exists i :: 0 <= i < n && k == NatToDecimal(i)
  }

  /** Every key `array_to_object` stores is the index of an element seen so
      far, and no index is stored twice. */
  lemma {:induction false} ArrayMembersKeys(items: seq<Json>, n: nat)
    requires n <= |items|
    ensures UniqueKeys(ArrayMembers(items, n))
    ensures forall j :: 0 <= j < |ArrayMembers(items, n)| ==> IsIndexKey(ArrayMembers(items, n)[j].0, n)
  {
    if n > 0 {
      ArrayMembersKeys(items, n - 1);
      var prev := ArrayMembers(items, n - 1);
      var r := ArrayMembers(items, n);
      forall j | 0 <= j < |prev| ensures IsIndexKey(prev[j].0, n) && prev[j].0 != NatToDecimal(n - 1) {
        var i :| 0 <= i < n - 1 && prev[j].0 == NatToDecimal(i);
        NatToDecimalInjective(i, n - 1);
      }
      if items[n - 1].JNull? {
        assert r == prev;
      } else {
        assert r == prev + [(NatToDecimal(n - 1), Fixed(items[n - 1]))];
        assert IsIndexKey(r[|prev|].0, n);
      }
    }
  }

  /** The set of indices of non-`null` elements among the first `n`. */
  function NonNullIndices(items: seq<Json>, n: nat): set<nat>
    requires n <= |items|
  {
    set i: nat | i < n && !items[i].JNull?
  }

  /** One pair is stored per non-`null` element seen so far. */
  lemma {:induction false} ArrayMembersCount(items: seq<Json>, n: nat)
    requires n <= |items|
    ensures |ArrayMembers(items, n)| == |NonNullIndices(items, n)|
  {
    if n == 0 {
      assert NonNullIndices(items, 0) == {};
    } else {
      ArrayMembersCount(items, n - 1);
      if items[n - 1].JNull? {
        assert NonNullIndices(items, n) == NonNullIndices(items, n - 1);
      } else {
        assert NonNullIndices(items, n) == NonNullIndices(items, n - 1) + {n - 1};
      }
    }
  }

  /** Pair `e` is what the loop stores for some non-`null` element among the first `n`. */
  predicate IsArrayEntry(items: seq<Json>, n: nat, e: (string, Json))
    requires n <= |items|
  {
    exists i :: 0 <= i < n && !items[i].JNull? && e == (NatToDecimal(i), Fixed(items[i]))
  }

  /** The stored pairs are exactly `(str(i), fix_structure(items[i]))` for the
      non-`null` elements among the first `n`. */
  lemma {:induction false} ArrayMembersContents(items: seq<Json>, n: nat)
    requires n <= |items|
    ensures forall e :: e in ArrayMembers(items, n) <==> IsArrayEntry(items, n, e)
  {
    if n > 0 {
      ArrayMembersContents(items, n - 1);
      var prev := ArrayMembers(items, n - 1);
      var own := if items[n - 1].JNull? then [] else [(NatToDecimal(n - 1), Fixed(items[n - 1]))];
      assert ArrayMembers(items, n) == prev + own;
      forall e ensures e in prev + own <==> IsArrayEntry(items, n, e) {
        if e in prev {
          var i :| 0 <= i < n - 1 && !items[i].JNull? && e == (NatToDecimal(i), Fixed(items[i]));
          assert 0 <= i < n;
        }
        if IsArrayEntry(items, n, e) {
          var i :| 0 <= i < n && !items[i].JNull? && e == (NatToDecimal(i), Fixed(items[i]));
          if i < n - 1 {
            assert IsArrayEntry(items, n - 1, e);
          }
        }
      }
    }
  }

  /** `array_to_object(arr)`: an object with exactly one entry per non-`null`
      element, keyed by the decimal string of the element's original index (so
      gaps left by `null` stay visible), listed in index order, values fixed. */
  lemma ArrayToObjectEntries(items: seq<Json>)
    ensures Fixed(JArr(items)).JObj?
    ensures Fixed(JArr(items)).fields == ArrayMembers(items, |items|)
    ensures |Fixed(JArr(items)).fields| == |NonNullIndices(items, |items|)|
    ensures forall e :: e in Fixed(JArr(items)).fields <==> IsArrayEntry(items, |items|, e)
  {
    ArrayMembersKeys(items, |items|);
    FromPairsDistinct(ArrayMembers(items, |items|));
    ArrayMembersCount(items, |items|);
    ArrayMembersContents(items, |items|);
  }

  // ---------------------------------------------------------------------
  // Objects

  lemma {:induction false} ObjectMembersAt(fields: seq<(string, Json)>, n: nat)
    requires n <= |fields|
    ensures |ObjectMembers(fields, n)| == n
    ensures forall i :: 0 <= i < n ==> ObjectMembers(fields, n)[i] == (SanitizeKey(fields[i].0), Fixed(fields[i].1))
  {
    if n > 0 {
      ObjectMembersAt(fields, n - 1);
    }
  }

  /** `fix_structure` on an object: the keys of the result are the sanitised
      keys of the input, each once. */
  lemma FixStructureObjectKeys(fields: seq<(string, Json)>)
    ensures Fixed(JObj(fields)).JObj?
    ensures UniqueKeys(Fixed(JObj(fields)).fields)
    ensures forall k :: k in Keys(Fixed(JObj(fields)).fields) <==>
      exists i :: 0 <= i < |fields| && SanitizeKey(fields[i].0) == k
  {
    var members := ObjectMembers(fields, |fields|);
    ObjectMembersAt(fields, |fields|);
    FromPairsKeys(members);
  }

  /** The sanitised keys of an object's members, in iteration order. */
  function SanitizedKeys(fields: seq<(string, Json)>): seq<string> {
    seq(|fields|, i requires 0 <= i < |fields| => SanitizeKey(fields[i].0))
  }

  /** Each key of a fixed object stands where its first sanitised occurrence
      was written: later members with the same sanitised key overwrite the
      value but do not move the key. */
  lemma FixStructureObjectKeyOrder(fields: seq<(string, Json)>)
    ensures Fixed(JObj(fields)).JObj?
    ensures Keys(Fixed(JObj(fields)).fields) == FirstOccurrences(SanitizedKeys(fields))
  {
    var members := ObjectMembers(fields, |fields|);
    ObjectMembersAt(fields, |fields|);
    FromPairsKeyOrder(members);
    forall i | 0 <= i < |fields| ensures Keys(members)[i] == SanitizedKeys(fields)[i] {
    }
    assert Keys(members) == SanitizedKeys(fields);
  }

  /** When several keys sanitise to the same key, the member that comes last in
      iteration order decides its value. */
  lemma FixStructureObjectLastWins(fields: seq<(string, Json)>, j: nat)
    requires j < |fields| && LastWithKey(fields, j)
    ensures Fixed(JObj(fields)).JObj?
    ensures Get(Fixed(JObj(fields)).fields, SanitizeKey(fields[j].0)) == Some(Fixed(fields[j].1))
  {
    var members := ObjectMembers(fields, |fields|);
    ObjectMembersAt(fields, |fields|);
    FromPairsLastWins(members, j);
  }

  /** When no two keys collide, the result has one entry per input member, in
      the input's order. */
  lemma FixStructureObjectNoCollision(fields: seq<(string, Json)>)
    requires NoCollision(fields)
    ensures Fixed(JObj(fields)).JObj?
    ensures |Fixed(JObj(fields)).fields| == |fields|
    ensures forall i :: 0 <= i < |fields| ==>
      Fixed(JObj(fields)).fields[i] == (SanitizeKey(fields[i].0), Fixed(fields[i].1))
  {
    var members := ObjectMembers(fields, |fields|);
    ObjectMembersAt(fields, |fields|);
    FromPairsDistinct(members);
  }

  /** No later member of the object has a key that sanitises like member `j`'s. */
  predicate LastWithKey(fields: seq<(string, Json)>, j: nat)
    requires j < |fields|
  {
    forall i :: j < i < |fields| ==> SanitizeKey(fields[i].0) != SanitizeKey(fields[j].0)
  }

  /** No two members of the object have keys that sanitise alike. */
  predicate NoCollision(fields: seq<(string, Json)>) {
    forall i, j :: 0 <= i < j < |fields| ==> SanitizeKey(fields[i].0) != SanitizeKey(fields[j].0)
  }

  // ---------------------------------------------------------------------
  // The output file

  /** The object written to the output file: the three inputs, each fixed,
      under the keys `bills`, `party_data` and `product_data`. */
  function FinalJson(bills: Json, partyData: Json, productData: Json): (r: Json)
    ensures FirebaseReady(r)
    ensures r.JObj? && Get(r.fields, "bills") == Some(Fixed(bills))
    ensures Get(r.fields, "party_data") == Some(Fixed(partyData))
    ensures Get(r.fields, "product_data") == Some(Fixed(productData))
  {
    FixedIsReady(bills);
    FixedIsReady(partyData);
    FixedIsReady(productData);
    var fields := [("bills", Fixed(bills)), ("party_data", Fixed(partyData)), ("product_data", Fixed(productData))];
    assert "product_data"[0] != "bills"[0] && "product_data"[1] != "party_data"[1];
    assert "party_data"[0] != "bills"[0];
    var last := fields[1..][1..];
    assert last == [("product_data", Fixed(productData))];
    assert Get(last, "product_data") == Some(Fixed(productData));
    assert Get(fields[1..], "product_data") == Get(last, "product_data");
    assert Get(fields, "product_data") == Get(fields[1..], "product_data");
    assert forall i :: 0 <= i < 3 ==> IsSafeKey(fields[i].0) by {
      assert IsSafeKey("bills") && IsSafeKey("party_data") && IsSafeKey("product_data");
    }
    JObj(fields)
  }
}
