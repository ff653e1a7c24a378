/** The fields of a JSON object are the entries of its hash table. */
module JsonObject {
  import opened Json
  import LinkHash
  import LinkHashMap

  lemma {:induction false} WithoutIs(fields: seq<(Text, Json)>, key: Text, p: nat)
    requires LinkHashMap.Unique(fields) && p < |fields| && fields[p].0 == key
    ensures Without(fields, key) == LinkHash.Without(fields, p)
    decreases |fields|
  {
    if p > 0 {
      assert fields[0].0 != key;
      var rest := fields[1..];
      assert forall i :: 0 <= i < |rest| ==> rest[i] == fields[i + 1];
      WithoutIs(rest, key, p - 1);
      assert [fields[0]] + LinkHash.Without(rest, p - 1) == LinkHash.Without(fields, p);
    } else {
      assert fields[1..] == LinkHash.Without(fields, 0);
    }
  }

  lemma {:induction false} WithoutNone(fields: seq<(Text, Json)>, key: Text)
    requires !LinkHash.HasKey(fields, key)
    ensures Without(fields, key) == fields
    decreases |fields|
  {
    if fields != [] {
      assert fields[0].0 != key;
      var rest := fields[1..];
      assert forall i :: 0 <= i < |rest| ==> rest[i] == fields[i + 1];
      WithoutNone(rest, key);
    }
  }

  /** Adding to the fields, as the tokener does it, is adding to the hash table. */
  lemma PutIsAdded(fields: seq<(Text, Json)>, key: Text, v: Json)
    requires LinkHashMap.Unique(fields)
    ensures Put(fields, key, v) == LinkHashMap.Added(fields, key, v)
  {
    LinkHashMap.DroppedIs(fields, key);
    if LinkHash.HasKey(fields, key) {
      var p :| 0 <= p < |fields| && fields[p].0 == key;
      WithoutIs(fields, key, p);
    } else {
      WithoutNone(fields, key);
      LinkHashMap.NotThere(fields, key);
    }
  }
}
