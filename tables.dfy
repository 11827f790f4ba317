/** A MongoDB collection seen as a map from id to record, whose ids are handed
    out in increasing order, so that every key is below the table's next id.
    `findOne(filter)` answers with the first matching record in natural
    (insertion) order, and `find()` lists the records in that order. */
module Tables {
  import opened Common

  /** The first key below `n` whose record satisfies `p`. */
  function FirstKey<T>(rows: map<Id, T>, n: nat, p: T -> bool): (r: Option<Id>)
    ensures r.Some? ==> r.value < n && r.value in rows && p(rows[r.value])
    ensures r.Some? ==> forall k :: k < r.value && k in rows ==> !p(rows[k])
    ensures r.None? ==> forall k :: k < n && k in rows ==> !p(rows[k])
  {
    if n == 0 then None
    else match FirstKey(rows, n - 1, p)
      case Some(k) => Some(k)
      case None => if n - 1 in rows && p(rows[n - 1]) then Some(n - 1) else None
  }

  /** The keys of `rows` below `n`, ascending: each key once, in natural order. */
  function KeysBelow<T>(rows: map<Id, T>, n: nat): (ks: seq<Id>)
    ensures forall i, j :: 0 <= i < j < |ks| ==> ks[i] < ks[j]
    ensures forall k :: k in ks <==> k in rows && k < n
  {
    if n == 0 then []
    else
      var prefix := KeysBelow(rows, n - 1);
      assert forall i :: 0 <= i < |prefix| ==> prefix[i] in prefix;
      prefix + (if n - 1 in rows then [n - 1] else [])
  }

  /** The records whose keys are below `n`, in natural order. */
  function Rows<T>(rows: map<Id, T>, n: nat): (r: seq<T>)
    ensures |r| == |KeysBelow(rows, n)|
    ensures forall i :: 0 <= i < |r| ==> r[i] == rows[KeysBelow(rows, n)[i]]
  {
    var ks := KeysBelow(rows, n);
    seq(|ks|, i requires 0 <= i < |ks| => rows[ks[i]])
  }

  /** When every key is below `n`, the listing holds exactly the table's records. */
  lemma RowsAreValues<T>(rows: map<Id, T>, n: nat)
    requires forall k :: k in rows ==> k < n
    ensures forall x :: x in Rows(rows, n) <==> x in rows.Values
  {
    var r, ks := Rows(rows, n), KeysBelow(rows, n);
    forall x | x in rows.Values ensures x in r {
      var k :| k in rows && rows[k] == x;
      var i :| 0 <= i < |ks| && ks[i] == k;
      assert r[i] == x;
    }
  }
}
