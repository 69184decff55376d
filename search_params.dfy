/**
 * The address's query parameters as the review listing keeps them, and
 * `updateSearchParams`, which writes a batch of updates into a copy of them:
 * a non-empty value sets its key, an empty value deletes it.
 */
module SearchParams {
  /** Query parameters, one value per key. */
  type Params = map<string, string>

  /** One update: a non-empty value sets the key, an empty one deletes it. */
  function Apply(params: Params, key: string, value: string): (r: Params)
    ensures value != "" ==> key in r && r[key] == value
    ensures value == "" ==> key !in r
    ensures forall k :: k != key ==> (k in r <==> k in params)
    ensures forall k :: k != key && k in params ==> r[k] == params[k]
  {
    if value != "" then params[key := value] else params - {key}
  }

  /** The parameters after the updates are applied one after another, in order. */
  function Updated(params: Params, updates: seq<(string, string)>): (r: Params)
    ensures updates != [] && updates[|updates| - 1].1 != "" ==>
      updates[|updates| - 1].0 in r && r[updates[|updates| - 1].0] == updates[|updates| - 1].1
    ensures updates != [] && updates[|updates| - 1].1 == "" ==> updates[|updates| - 1].0 !in r
  {
    if updates == [] then params
    else
      var last := updates[|updates| - 1];
      Apply(Updated(params, updates[..|updates| - 1]), last.0, last.1)
  }

  /** The keys an update batch names. */
  function Keys(updates: seq<(string, string)>): set<string> {
    set i | 0 <= i < |updates| :: updates[i].0
  }

  /** No key is named twice (an object literal's keys are distinct). */
  predicate DistinctKeys(updates: seq<(string, string)>) {
    forall i, j :: 0 <= i < j < |updates| ==> updates[i].0 != updates[j].0
  }

  /**
   * With distinct keys, every key named with a value holds that value, every
   * key named with the empty value is gone, and every other key is as before.
   */
  lemma {:induction false} UpdatedEffect(params: Params, updates: seq<(string, string)>)
    requires DistinctKeys(updates)
    ensures forall i :: 0 <= i < |updates| && updates[i].1 != "" ==>
      updates[i].0 in Updated(params, updates) && Updated(params, updates)[updates[i].0] == updates[i].1
    ensures forall i :: 0 <= i < |updates| && updates[i].1 == "" ==> updates[i].0 !in Updated(params, updates)
    ensures forall k :: k !in Keys(updates) ==> (k in Updated(params, updates) <==> k in params)
    ensures forall k :: k !in Keys(updates) && k in params ==> Updated(params, updates)[k] == params[k]
  {
    if updates != [] {
      var n := |updates| - 1;
      var front := updates[..n];
      assert DistinctKeys(front);
      UpdatedEffect(params, front);
      assert forall i :: 0 <= i < n ==> front[i] == updates[i];
      assert forall k :: k !in Keys(updates) ==> k !in Keys(front) && k != updates[n].0;
    }
  }

  /** Applying the same batch twice changes nothing more. */
  lemma {:induction false} UpdatedIdempotent(params: Params, updates: seq<(string, string)>)
    requires DistinctKeys(updates)
    ensures Updated(Updated(params, updates), updates) == Updated(params, updates)
  {
    var once := Updated(params, updates);
    var twice := Updated(once, updates);
    UpdatedEffect(params, updates);
    UpdatedEffect(once, updates);
    forall k | true
      ensures k in twice <==> k in once
      ensures k in twice ==> twice[k] == once[k]
    {
      if k in Keys(updates) {
        var i :| 0 <= i < |updates| && updates[i].0 == k;
      }
    }
  }

  /**
   * `updateSearchParams`: copies the parameters and applies each update in
   * turn; the result is `Updated(params, updates)`.
   */
  method UpdateSearchParams(params: Params, updates: seq<(string, string)>) returns (newParams: Params)
    ensures newParams == Updated(params, updates)
  {
    newParams := params;
    for n := 0 to |updates|
      invariant newParams == Updated(params, updates[..n])
    {
      var (key, value) := updates[n];
      if value != "" {
        newParams := newParams[key := value];
      } else {
        newParams := newParams - {key};
      }
      assert updates[..n + 1][..n] == updates[..n];
    }
    assert updates[..|updates|] == updates;
  }
}
