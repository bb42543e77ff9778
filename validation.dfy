/**
 * Validate: run an ordered list of validators against the submitted form
 * values and concatenate what they report into one ErrorList.
 */
module Validation {
  import opened Wrappers
  import opened Errors
  import opened Grouping

  /** The submitted form values, by field name. */
  type DataSource = map<string, string>

  /** A rule: given the data source, the violations it finds, or None (Go's nil). */
  type Validator = DataSource -> Option<ErrorList>

  /** What one validator's result adds to the list: nothing exactly when it is nil or an empty list. */
  function Contribution(r: Option<ErrorList>): (c: ErrorList)
    ensures c == [] <==> r.None? || r.value == []
    ensures r.Some? ==> c == r.value
  {
    match r
    case None => []
    case Some(l) => l
  }

  /** The results of the validators, in validator order. */
  function Results(ds: DataSource, validators: seq<Validator>): (rs: seq<Option<ErrorList>>)
    ensures |rs| == |validators|
    ensures forall i :: 0 <= i < |validators| ==> rs[i] == validators[i](ds)
  {
    seq(|validators|, i requires 0 <= i < |validators| => validators[i](ds))
  }

  /** The list Validate builds from the results: each contribution appended in turn, after everything before it. */
  function Collected(rs: seq<Option<ErrorList>>): ErrorList
  {
    if rs == [] then [] else Collected(rs[..|rs| - 1]) + Contribution(rs[|rs| - 1])
  }

  /** Validators that all report nil give the empty list. */
  lemma {:induction false} AllNilCollectsNothing(rs: seq<Option<ErrorList>>)
    requires forall i :: 0 <= i < |rs| ==> rs[i].None?
    ensures Collected(rs) == []
  {
    if rs != [] {
      AllNilCollectsNothing(rs[..|rs| - 1]);
    }
  }

  /** Validate: every validator runs, in order; its errors are appended to the result. */
  method Validate(ds: DataSource, validators: seq<Validator>) returns (errs: ErrorList)
    ensures errs == Collected(Results(ds, validators))
    ensures forall e :: e in errs <==> exists i :: 0 <= i < |validators| && e in Contribution(validators[i](ds))
  {
    errs := [];
    ghost var rs := Results(ds, validators);
    for i := 0 to |validators|
      invariant errs == Collected(rs[..i])
    {
      var r := validators[i](ds);
      assert rs[..i + 1][..i] == rs[..i];
      match r {
        case None =>
        case Some(l) => errs := errs + l;
      }
    }
    assert rs[..|validators|] == rs;
    CollectedMembers(rs);
  }

  /** Collecting two runs of results back to back concatenates their lists. */
  lemma {:induction false} CollectedAppend(a: seq<Option<ErrorList>>, b: seq<Option<ErrorList>>)
    ensures Collected(a + b) == Collected(a) + Collected(b)
  {
    if b == [] {
      assert a + b == a;
    } else {
      var c, front, last := a + b, b[..|b| - 1], b[|b| - 1];
      assert c[..|c| - 1] == a + front && c[|c| - 1] == last;
      CollectedAppend(a, front);
      calc {
        Collected(c);
        Collected(a + front) + Contribution(last);
        Collected(a) + Collected(front) + Contribution(last);
        Collected(a) + Collected(b);
      }
    }
  }

  /** One result collected alone is its contribution. */
  lemma CollectedSingle(r: Option<ErrorList>)
    ensures Collected([r]) == Contribution(r)
  {
  }

  /** Validator i's errors sit, unchanged, between those of the validators before and after it. */
  lemma CollectedSplit(rs: seq<Option<ErrorList>>, i: nat)
    requires i < |rs|
    ensures Collected(rs) == Collected(rs[..i]) + Contribution(rs[i]) + Collected(rs[i + 1..])
  {
    var front, post := rs[..i + 1], rs[i + 1..];
    assert rs == front + post;
    CollectedAppend(front, post);
    assert front[..|front| - 1] == rs[..i];
  }

  /** A nil result, wherever it stands, leaves the collected list as it is. */
  lemma NilContributesNothing(a: seq<Option<ErrorList>>, b: seq<Option<ErrorList>>)
    ensures Collected(a + [None] + b) == Collected(a + b)
  {
    CollectedAppend(a + [None], b);
    CollectedAppend(a, [None]);
    CollectedAppend(a, b);
    CollectedSingle(None);
  }

  /** Validate invents nothing and drops nothing: every error comes from some validator's own result. */
  lemma {:induction false} CollectedMembers(rs: seq<Option<ErrorList>>)
    ensures forall e :: e in Collected(rs) <==> exists i :: 0 <= i < |rs| && e in Contribution(rs[i])
  {
    if rs != [] {
      var p := rs[..|rs| - 1];
      CollectedMembers(p);
      forall e | e in Collected(rs)
        ensures exists i :: 0 <= i < |rs| && e in Contribution(rs[i])
      {
        if e in Collected(p) {
          var i :| 0 <= i < |p| && e in Contribution(p[i]);
          assert rs[i] == p[i];
        } else {
          assert e in Contribution(rs[|rs| - 1]);
        }
      }
      forall e, i | 0 <= i < |rs| && e in Contribution(rs[i])
        ensures e in Collected(rs)
      {
        if i < |rs| - 1 {
          assert p[i] == rs[i];
        }
      }
    }
  }

  /** The number of errors is the sum of what each validator reported. */
  function TotalCount(rs: seq<Option<ErrorList>>): nat
  {
    if rs == [] then 0 else |Contribution(rs[0])| + TotalCount(rs[1..])
  }

  /** Concatenation keeps every error: the collected length is the sum of the result lengths. */
  lemma {:induction false} CollectedLength(rs: seq<Option<ErrorList>>)
    ensures |Collected(rs)| == TotalCount(rs)
  {
    if rs != [] {
      assert rs == [rs[0]] + rs[1..];
      CollectedAppend([rs[0]], rs[1..]);
      CollectedSingle(rs[0]);
      CollectedLength(rs[1..]);
    }
  }

  /**
   * Grouping the collected list: within each bucket the messages of an
   * earlier run of validators come before those of a later one.
   */
  lemma CollectedBucketOrder(a: seq<Option<ErrorList>>, b: seq<Option<ErrorList>>, k: string)
    ensures Bucket(Collected(a + b), k) == Bucket(Collected(a), k) + Bucket(Collected(b), k)
  {
    CollectedAppend(a, b);
    BucketAppend(Collected(a), Collected(b), k);
  }

  /** A key is in the grouped result exactly when some validator reported an error under it. */
  lemma CollectedKeys(rs: seq<Option<ErrorList>>, k: string)
    ensures k in GroupByField(Collected(rs)) <==>
      exists i :: 0 <= i < |rs| && k in Names(Contribution(rs[i]))
  {
    GroupKeys(Collected(rs));
    CollectedMembers(rs);
    if k in Names(Collected(rs)) {
      var e :| e in Collected(rs) && Key(e) == k;
      var i :| 0 <= i < |rs| && e in Contribution(rs[i]);
      assert k in Names(Contribution(rs[i]));
    }
    if exists i :: 0 <= i < |rs| && k in Names(Contribution(rs[i])) {
      var i :| 0 <= i < |rs| && k in Names(Contribution(rs[i]));
      var e :| e in Contribution(rs[i]) && Key(e) == k;
      assert e in Collected(rs);
    }
  }

  /** Rendering the collected list joins the renderings of two non-empty runs with ", ". */
  lemma CollectedRender(a: seq<Option<ErrorList>>, b: seq<Option<ErrorList>>)
    requires Collected(a) != [] && Collected(b) != []
    ensures Render(Collected(a + b)) == Render(Collected(a)) + SEPARATOR + Render(Collected(b))
  {
    CollectedAppend(a, b);
    RenderAppend(Collected(a), Collected(b));
  }

  /** No validators: an empty list, grouped as an empty map. */
  lemma ValidateNothing(ds: DataSource)
    ensures Collected(Results(ds, [])) == []
    ensures GroupByField(Collected(Results(ds, []))) == map[]
  {
  }

  /**
   * TestValidate: the username and missing_field validators report one
   * error each and the email validator nil. The data source has no
   * missing_field value, and Validate adds nothing for it beyond what its
   * validator reported; email gets no key.
   */
  lemma ValidateExample()
    ensures
      var ds := map["username" := "john", "email" := "john@john.com"];
      var validators: seq<Validator> := [
        _ => Some([Field("username", "must be longer than 4")]),
        _ => Some([Field("missing_field", "Expected field to exist.")]),
        _ => None];
      var m := GroupByField(Collected(Results(ds, validators)));
      && "missing_field" !in ds
      && m == map["username" := ["must be longer than 4"], "missing_field" := ["Expected field to exist."]]
      && "email" !in m
  {
    var ds := map["username" := "john", "email" := "john@john.com"];
    var validators: seq<Validator> := [
      _ => Some([Field("username", "must be longer than 4")]),
      _ => Some([Field("missing_field", "Expected field to exist.")]),
      _ => None];
    var rs := Results(ds, validators);
    var e1, e2 := Field("username", "must be longer than 4"), Field("missing_field", "Expected field to exist.");
    assert rs == [Some([e1]), Some([e2]), None];
    assert rs[..2][..1][..0] == [] && rs[..2][..1] == rs[..1] && rs[..|rs| - 1] == rs[..2];
    assert Collected(rs[..1]) == [e1];
    assert Collected(rs[..2]) == [e1, e2];
    var l := Collected(rs);
    assert l == [e1, e2];
    assert l[..1][..0] == [] && l[..|l| - 1] == l[..1];
    var empty: FieldMap := map[];
    var m1 := Add(empty, e1);
    assert GroupByField(l[..1]) == m1;
    assert GroupByField(l) == Add(m1, e2);
    assert Key(e1) == "username" && Key(e2) == "missing_field";
    assert [] + [Message(e1)] == ["must be longer than 4"];
    assert [] + [Message(e2)] == ["Expected field to exist."];
    assert m1 == empty["username" := ["must be longer than 4"]];
  }
}
