/**
 * A plain JavaScript object used as a dictionary (the users object and the URL
 * database). It is modelled by its own enumerable properties, as (name, value)
 * pairs in the order `for...in` and `Object.keys` visit them.
 */
module Tables {

  type Table<V> = seq<(string, V)>

  /** An object never holds the same property name twice. */
  predicate DistinctKeys<V>(t: Table<V>)
  {
    forall i, j :: 0 <= i < j < |t| ==> t[i].0 != t[j].0
  }

  /** `Object.prototype.hasOwnProperty.call(t, k)`. */
  predicate HasKey<V>(t: Table<V>, k: string)
  {
    exists i :: 0 <= i < |t| && t[i].0 == k
  }

  /** The object read as a finite map from property name to value. */
  function ToMap<V>(t: Table<V>): (m: map<string, V>)
    ensures forall k :: k in m <==> HasKey(t, k)
  {
    if |t| == 0 then map[]
    else
      var init := t[..|t| - 1];
      assert forall k :: HasKey(t, k) <==> HasKey(init, k) || k == t[|t| - 1].0 by {
        forall k | HasKey(t, k) && k != t[|t| - 1].0 ensures HasKey(init, k) {
          var i :| 0 <= i < |t| && t[i].0 == k;
          assert init[i] == t[i];
        }
        forall k | HasKey(init, k) ensures HasKey(t, k) {
          var i :| 0 <= i < |init| && init[i].0 == k;
          assert t[i] == init[i];
        }
      }
      ToMap(init)[t[|t| - 1].0 := t[|t| - 1].1]
  }

  /** Appending one property adds exactly that name and value to the map view. */
  lemma ToMapSnoc<V>(t: Table<V>, k: string, v: V)
    ensures ToMap(t + [(k, v)]) == ToMap(t)[k := v]
  {
    assert (t + [(k, v)])[..|t|] == t;
  }

  /** Under distinct names, every entry is what the map view yields for its name. */
  lemma {:induction false} ToMapAt<V>(t: Table<V>, i: int)
    requires DistinctKeys(t)
    requires 0 <= i < |t|
    ensures t[i].0 in ToMap(t) && ToMap(t)[t[i].0] == t[i].1
  {
    var init := t[..|t| - 1];
    if i < |t| - 1 {
      assert init[i] == t[i];
      ToMapAt(init, i);
    }
  }

  /**
   * The assignment `t[k] = v`: a property already present keeps its place and
   * takes the new value; a new property is added after all the others.
   */
  function Put<V>(t: Table<V>, k: string, v: V): Table<V>
  {
    if |t| == 0 then [(k, v)]
    else if t[|t| - 1].0 == k then t[..|t| - 1] + [(k, v)]
    else if HasKey(t[..|t| - 1], k) then Put(t[..|t| - 1], k, v) + [t[|t| - 1]]
    else t + [(k, v)]
  }

  /** An assignment to a present name overwrites one entry of that name in place; to a new name it appends. */
  lemma {:induction false} PutShape<V>(t: Table<V>, k: string, v: V)
    ensures !HasKey(t, k) ==> Put(t, k, v) == t + [(k, v)]
    ensures HasKey(t, k) ==>
      exists i :: 0 <= i < |t| && t[i].0 == k && Put(t, k, v) == t[i := (k, v)]
  {
    if |t| > 0 {
      var init, last := t[..|t| - 1], t[|t| - 1];
      assert t == init + [last];
      if last.0 == k {
        assert Put(t, k, v) == t[|t| - 1 := (k, v)];
      } else if HasKey(init, k) {
        PutShape(init, k, v);
        var i :| 0 <= i < |init| && init[i].0 == k && Put(init, k, v) == init[i := (k, v)];
        assert Put(t, k, v) == t[i := (k, v)];
      }
    }
  }

  /** After `t[k] = v` the object has the names it had, plus `k`, and no entry it did not have except `(k, v)`. */
  lemma PutKeys<V>(t: Table<V>, k: string, v: V)
    ensures forall k' :: HasKey(Put(t, k, v), k') <==> HasKey(t, k') || k' == k
    ensures forall e :: e in Put(t, k, v) ==> e in t || e == (k, v)
  {
    PutShape(t, k, v);
    var r := Put(t, k, v);
    if HasKey(t, k) {
      var i :| 0 <= i < |t| && t[i].0 == k && r == t[i := (k, v)];
      forall k' ensures HasKey(r, k') <==> HasKey(t, k') || k' == k {
        if HasKey(r, k') {
          var j :| 0 <= j < |r| && r[j].0 == k';
          assert t[j].0 == k';
        }
        if HasKey(t, k') {
          var j :| 0 <= j < |t| && t[j].0 == k';
          assert r[j].0 == k';
        }
        if k' == k {
          assert r[i].0 == k;
        }
      }
    } else {
      forall k' ensures HasKey(r, k') <==> HasKey(t, k') || k' == k {
        if HasKey(r, k') {
          var j :| 0 <= j < |r| && r[j].0 == k';
          if j < |t| { assert t[j].0 == k'; }
        }
        if HasKey(t, k') {
          var j :| 0 <= j < |t| && t[j].0 == k';
          assert r[j].0 == k';
        }
        if k' == k {
          assert r[|t|].0 == k;
        }
      }
    }
  }

  /** Overwriting the value of an entry keeps the names, hence keeps them distinct. */
  lemma ReplaceDistinct<V>(t: Table<V>, i: int, v: V)
    requires DistinctKeys(t) && 0 <= i < |t|
    ensures DistinctKeys(t[i := (t[i].0, v)])
  {
    var r := t[i := (t[i].0, v)];
    forall a, b | 0 <= a < b < |r| ensures r[a].0 != r[b].0 {
      assert r[a].0 == t[a].0 && r[b].0 == t[b].0;
    }
  }

  /** Overwriting the value of an entry of a valid object changes its map view at that name only. */
  lemma ReplaceToMap<V>(t: Table<V>, i: int, v: V)
    requires DistinctKeys(t) && 0 <= i < |t|
    ensures ToMap(t[i := (t[i].0, v)]) == ToMap(t)[t[i].0 := v]
  {
    var k, r := t[i].0, t[i := (t[i].0, v)];
    ReplaceDistinct(t, i, v);
    assert forall k' :: HasKey(r, k') <==> HasKey(t, k') by {
      forall k' ensures HasKey(r, k') <==> HasKey(t, k') {
        if HasKey(r, k') {
          var j :| 0 <= j < |r| && r[j].0 == k';
          assert t[j].0 == k';
        }
        if HasKey(t, k') {
          var j :| 0 <= j < |t| && t[j].0 == k';
          assert r[j].0 == k';
        }
      }
    }
    forall k' | k' in ToMap(r) ensures ToMap(r)[k'] == ToMap(t)[k := v][k'] {
      var j :| 0 <= j < |r| && r[j].0 == k';
      ToMapAt(r, j);
      if j != i {
        ToMapAt(t, j);
      }
    }
  }

  /** Adding a name the object lacks keeps its names distinct. */
  lemma AppendDistinct<V>(t: Table<V>, k: string, v: V)
    requires DistinctKeys(t) && !HasKey(t, k)
    ensures DistinctKeys(t + [(k, v)])
  {
    var r := t + [(k, v)];
    forall a, b | 0 <= a < b < |r| ensures r[a].0 != r[b].0 {
      if b == |t| {
        assert t[a].0 == r[a].0;
      } else {
        assert t[a] == r[a] && t[b] == r[b];
      }
    }
  }

  /** An assignment keeps an object's names distinct and updates its map view at `k` only. */
  lemma PutToMap<V>(t: Table<V>, k: string, v: V)
    requires DistinctKeys(t)
    ensures DistinctKeys(Put(t, k, v))
    ensures ToMap(Put(t, k, v)) == ToMap(t)[k := v]
  {
    PutShape(t, k, v);
    if HasKey(t, k) {
      var i :| 0 <= i < |t| && t[i].0 == k && Put(t, k, v) == t[i := (k, v)];
      ReplaceDistinct(t, i, v);
      ReplaceToMap(t, i, v);
    } else {
      ToMapSnoc(t, k, v);
      AppendDistinct(t, k, v);
    }
  }
}
