/**
 * Definitions shared by the ingestion and Slack modules: optional values,
 * the outcome of an asynchronous operation (a returned boolean or a thrown
 * error), the freshness gate used by every cache, in-order map assignment
 * (what a `forEach` writing `obj[k] = v` amounts to) and the conjunction of
 * per-item results (`results.every(el => el)` after a `Promise.map`).
 */
module Common {

  datatype Option<T> = None | Some(value: T)

  /** Errors that can escape an operation (a rejected promise). */
  datatype Failure =
    | SheetsApiError     // the spreadsheet fetch threw
    | MissingDevColumn   // `cols[2m + 1].slice` on a missing column (a TypeError)
    | SlackApiError      // a Slack API call threw

  /** What an async operation of the source ends with. */
  datatype Outcome = Returned(value: bool) | Threw(error: Failure)

  /**
   * `lastUpdate && lastUpdate.isAfter(now - window)`: the cache was
   * refreshed less than `window` seconds ago.
   */
  predicate Fresh(lastUpdate: Option<int>, now: int, window: nat)
  {
    lastUpdate.Some? && lastUpdate.value > now - window
  }

  /* ---------------- in-order assignment into a map ---------------- */

  /** The map after `m[k] := v` for each pair of `kvs`, left to right. */
  function AssignAll<K, V>(m: map<K, V>, kvs: seq<(K, V)>): map<K, V>
    decreases |kvs|
  {
    if kvs == [] then m
    else AssignAll(m, kvs[..|kvs| - 1])[kvs[|kvs| - 1].0 := kvs[|kvs| - 1].1]
  }

  /** The keys that `kvs` assigns. */
  function KeysOf<K, V>(kvs: seq<(K, V)>): set<K>
  {
    set i | 0 <= i < |kvs| :: kvs[i].0
  }

  /** Assignment adds exactly the assigned keys: nothing is removed. */
  lemma {:induction false} AssignAllKeys<K, V>(m: map<K, V>, kvs: seq<(K, V)>)
    ensures AssignAll(m, kvs).Keys == m.Keys + KeysOf(kvs)
    decreases |kvs|
  {
    if kvs != [] {
      var init := kvs[..|kvs| - 1];
      AssignAllKeys(m, init);
      assert KeysOf(kvs) == KeysOf(init) + {kvs[|kvs| - 1].0} by {
        forall k | k in KeysOf(kvs) ensures k in KeysOf(init) + {kvs[|kvs| - 1].0} {
          var i :| 0 <= i < |kvs| && kvs[i].0 == k;
          if i < |kvs| - 1 { assert init[i] == kvs[i]; }
        }
        forall k | k in KeysOf(init) ensures k in KeysOf(kvs) {
          var i :| 0 <= i < |init| && init[i].0 == k;
          assert kvs[i] == init[i];
        }
      }
    }
  }

  /** The last assignment to a key is the value it ends up with. */
  lemma {:induction false} AssignAllLastWins<K, V>(m: map<K, V>, kvs: seq<(K, V)>, i: nat)
    requires i < |kvs|
    requires forall j :: i < j < |kvs| ==> kvs[j].0 != kvs[i].0
    ensures kvs[i].0 in AssignAll(m, kvs) && AssignAll(m, kvs)[kvs[i].0] == kvs[i].1
    decreases |kvs|
  {
    if i < |kvs| - 1 {
      var init := kvs[..|kvs| - 1];
      assert init[i] == kvs[i];
      forall j | i < j < |init| ensures init[j].0 != init[i].0 {
        assert init[j] == kvs[j];
      }
      AssignAllLastWins(m, init, i);
    }
  }

  /** A key that is never assigned keeps its presence and value. */
  lemma {:induction false} AssignAllUntouched<K, V>(m: map<K, V>, kvs: seq<(K, V)>, k: K)
    requires k !in KeysOf(kvs)
    ensures k in AssignAll(m, kvs) <==> k in m
    ensures k in m ==> AssignAll(m, kvs)[k] == m[k]
    decreases |kvs|
  {
    if kvs != [] {
      var init := kvs[..|kvs| - 1];
      assert k != kvs[|kvs| - 1].0;
      assert forall i :: 0 <= i < |init| ==> init[i] == kvs[i];
      AssignAllUntouched(m, init, k);
    }
  }

  /* ---------------- conjunction of per-item outcomes ---------------- */

  /**
   * The outcome of running the items in order and then taking
   * `results.every(el => el)`: the first thrown error escapes, otherwise
   * the conjunction of the returned booleans.
   */
  function Conjoin(outs: seq<Outcome>): (r: Outcome)
    ensures r == Returned(true) <==> forall k :: 0 <= k < |outs| ==> outs[k] == Returned(true)
    ensures r == Returned(false) <==>
      (forall k :: 0 <= k < |outs| ==> outs[k].Returned?) &&
      (exists k :: 0 <= k < |outs| && outs[k] == Returned(false))
    ensures r.Threw? ==>
      exists k :: 0 <= k < |outs| && outs[k] == r && forall j :: 0 <= j < k ==> outs[j].Returned?
  {
    if outs == [] then Returned(true)
    else if outs[0].Threw? then outs[0]
    else
      var rest := Conjoin(outs[1..]);
      assert forall k :: 1 <= k < |outs| ==> outs[k] == outs[1..][k - 1];
      if rest.Threw? then
        ghost var k :| 0 <= k < |outs[1..]| && outs[1..][k] == rest && forall j :: 0 <= j < k ==> outs[1..][j].Returned?;
        assert outs[k + 1] == rest;
        rest
      else if outs[0].value then rest
      else Returned(false)
  }

  /** `acc && o` where a thrown `o` escapes. */
  function AndThen(acc: bool, o: Outcome): Outcome
  {
    match o
    case Threw(_) => o
    case Returned(b) => Returned(acc && b)
  }
}
