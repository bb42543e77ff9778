/**
 * ErrorList.Map(): the messages of an ErrorList grouped by field name, for
 * a presentation layer that shows each message next to its input.
 */
module Grouping {
  import opened Errors

  /** Field name to its messages, as Map() returns it. */
  type FieldMap = map<string, seq<string>>

  /** The bucket of an element: its field name, or "" for an error that is not a FieldError. */
  function Key(e: Error): string
  {
    match e
    case Plain(_) => ""
    case Field(name, _) => name
  }

  /** The buckets a list needs: one per distinct key of its elements. */
  function Names(l: ErrorList): set<string>
  {
    set e | e in l :: Key(e)
  }

  /** The "" bucket takes plain errors and FieldErrors named "" alike; every other key is a field name. */
  lemma UnscopedBucket(e: Error)
    ensures Key(e) == "" <==> e.Plain? || e.name == ""
    ensures Key(e) != "" ==> e.Field? && Key(e) == e.name
  {
  }

  /** Reference for one bucket: the messages of the elements keyed `k`, in list order. */
  function Bucket(l: ErrorList, k: string): seq<string>
  {
    if l == [] then []
    else (if Key(l[0]) == k then [Message(l[0])] else []) + Bucket(l[1..], k)
  }

  /** One step of Map(): append the element's message to its bucket, creating the bucket if absent. */
  function Add(m: FieldMap, e: Error): FieldMap
  {
    m[Key(e) := (if Key(e) in m then m[Key(e)] else []) + [Message(e)]]
  }

  /** One step of Map() appends the message to the end of the element's bucket and changes no other bucket. */
  lemma AddStep(m: FieldMap, e: Error)
    ensures Add(m, e).Keys == m.Keys + {Key(e)}
    ensures forall k :: k in m && k != Key(e) ==> Add(m, e)[k] == m[k]
    ensures Key(e) in m ==> Add(m, e)[Key(e)] == m[Key(e)] + [Message(e)]
    ensures Key(e) !in m ==> Add(m, e)[Key(e)] == [Message(e)]
  {
  }

  /** The map Map() builds: the elements added one after another, in list order. No bucket is empty. */
  function GroupByField(l: ErrorList): (r: FieldMap)
    ensures forall k :: k in r ==> r[k] != []
  {
    if l == [] then map[] else Add(GroupByField(l[..|l| - 1]), l[|l| - 1])
  }

  /** ErrorList.Map(), building the map element by element. */
  method Map(l: ErrorList) returns (m: FieldMap)
    ensures m == GroupByField(l)
    ensures m.Keys == Names(l)
    ensures forall k :: k in m ==> m[k] == Bucket(l, k) && m[k] != []
  {
    m := map[];
    for i := 0 to |l|
      invariant m == GroupByField(l[..i])
    {
      var k := Key(l[i]);
      var bucket := if k in m then m[k] else [];
      assert l[..i + 1][..i] == l[..i];
      m := m[k := bucket + [Message(l[i])]];
    }
    assert l[..|l|] == l;
    GroupKeys(l);
    forall k | k in m
      ensures m[k] == Bucket(l, k) && m[k] != []
    {
      GroupBucket(l, k);
    }
  }

  /** Bucket distributes over concatenation: earlier elements stay first. */
  lemma {:induction false} BucketAppend(a: ErrorList, b: ErrorList, k: string)
    ensures Bucket(a + b, k) == Bucket(a, k) + Bucket(b, k)
  {
    if a != [] {
      assert (a + b)[1..] == a[1..] + b;
      BucketAppend(a[1..], b, k);
    } else {
      assert a + b == b;
    }
  }

  /** The keys of a concatenation are the keys of both parts. */
  lemma NamesAppend(a: ErrorList, b: ErrorList)
    ensures Names(a + b) == Names(a) + Names(b)
  {
  }

  /** A bucket is empty exactly when no element carries its key. */
  lemma {:induction false} BucketEmpty(l: ErrorList, k: string)
    ensures Bucket(l, k) == [] <==> k !in Names(l)
  {
    if l != [] {
      BucketEmpty(l[1..], k);
      assert l == [l[0]] + l[1..];
      NamesAppend([l[0]], l[1..]);
      assert Names([l[0]]) == {Key(l[0])};
    }
  }

  /** Map() has exactly one key per distinct field name present, "" standing for plain errors. */
  lemma {:induction false} GroupKeys(l: ErrorList)
    ensures GroupByField(l).Keys == Names(l)
  {
    if l != [] {
      var p, e := l[..|l| - 1], l[|l| - 1];
      GroupKeys(p);
      assert l == p + [e];
      NamesAppend(p, [e]);
      assert Names([e]) == {Key(e)};
    }
  }

  /** Every bucket of Map() holds the messages of its elements in list order, and is never empty. */
  lemma {:induction false} GroupBucket(l: ErrorList, k: string)
    ensures k in GroupByField(l) <==> Bucket(l, k) != []
    ensures k in GroupByField(l) ==> GroupByField(l)[k] == Bucket(l, k)
  {
    if l != [] {
      var p, e := l[..|l| - 1], l[|l| - 1];
      GroupBucket(p, k);
      assert l == p + [e];
      BucketAppend(p, [e], k);
      assert Bucket([e], k) == if Key(e) == k then [Message(e)] else [];
    }
  }

  /** Some key of a non-empty map, the one SumSizes takes out first. */
  ghost function Pick(m: FieldMap): (k: string)
    requires |m| > 0
    ensures k in m
  {
    var k :| k in m; k
  }

  /** The sum of the bucket sizes of a map. */
  ghost function SumSizes(m: FieldMap): nat
    decreases |m|
  {
    if |m| == 0 then 0
    else
      var k := Pick(m);
      assert |m - {k}| < |m| by { assert (m - {k}).Keys == m.Keys - {k}; }
      |m[k]| + SumSizes(m - {k})
  }

  /** Taking two keys out of a map in either order leaves the same map. */
  lemma RemoveCommutes(m: FieldMap, j: string, k: string)
    ensures m - {j} - {k} == m - {k} - {j}
  {
  }

  /** Any key can be taken out first when summing. */
  lemma {:induction false} SumSizesRemove(m: FieldMap, k: string)
    requires k in m
    ensures SumSizes(m) == |m[k]| + SumSizes(m - {k})
    decreases |m|
  {
    var j := Pick(m);
    if j != k {
      var mj, mk := m - {j}, m - {k};
      assert mj.Keys == m.Keys - {j} && mk.Keys == m.Keys - {k};
      SumSizesRemove(mj, k);
      SumSizesRemove(mk, j);
      RemoveCommutes(m, j, k);
    }
  }

  /** Adding one element grows the total bucket size by one. */
  lemma SumSizesAdd(m: FieldMap, e: Error)
    ensures SumSizes(Add(m, e)) == SumSizes(m) + 1
  {
    var k := Key(e);
    var r := Add(m, e);
    SumSizesRemove(r, k);
    assert r - {k} == m - {k};
    if k in m {
      SumSizesRemove(m, k);
    } else {
      assert m - {k} == m;
    }
  }

  /** Every element lands in exactly one bucket: the bucket sizes sum to the list length. */
  lemma {:induction false} GroupConservesCount(l: ErrorList)
    ensures SumSizes(GroupByField(l)) == |l|
  {
    if l != [] {
      GroupConservesCount(l[..|l| - 1]);
      SumSizesAdd(GroupByField(l[..|l| - 1]), l[|l| - 1]);
    }
  }

  /** The list of TestErrorList_Map: three buckets, username keeping its two messages in order. */
  lemma MapExample()
    ensures var m := GroupByField([
        Field("username", "not long enough"),
        Field("username", "should be an email"),
        Field("password", "not long enough"),
        Plain("asploded")]);
      && |m| == 3
      && "username" in m && m["username"] == ["not long enough", "should be an email"]
      && "password" in m && m["password"] == ["not long enough"]
      && "" in m && m[""] == ["asploded"]
  {
    var l := [
      Field("username", "not long enough"),
      Field("username", "should be an email"),
      Field("password", "not long enough"),
      Plain("asploded")];
    var m1 := GroupByField(l[..1]);
    var m2 := GroupByField(l[..2]);
    var m3 := GroupByField(l[..3]);
    var m := GroupByField(l);
    assert l[..1][..0] == [] && l[..2][..1] == l[..1] && l[..3][..2] == l[..2] && l[..|l| - 1] == l[..3];
    assert GroupByField(l[..1][..0]) == map[];
    assert m1 == Add(map[], l[0]);
    assert m2 == Add(m1, l[1]);
    assert m3 == Add(m2, l[2]);
    assert m == Add(m3, l[3]);
    assert Key(l[3]) == "" && Message(l[3]) == "asploded";
    assert m.Keys == {"username", "password", ""};
  }
}
