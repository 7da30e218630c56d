/** `Store` (Store.js:7-57): the cached catalogue and schedules, and the
    refresh that rebuilds them. `refresh` is a transition from one state to
    the next. Its two inputs from the outside are what the catalogue fetch
    produced and what fetching one line's schedule produces. */
module Store {
  import opened Types

  /** `Store.data`: the catalogue by line identifier, and the schedules
      fetched so far by line identifier. */
  datatype Data = Data(lines: map<LineId, LineRecord>, schedules: map<LineId, Timetable>)

  /** The state before the first refresh (Store.js:11-14). */
  function Initial(): (d: Data)
    ensures d.lines == map[] && d.schedules == map[]
  {
    Data(map[], map[])
  }

  /** A catalogue object as `Object.entries` lists it: its keys in
      enumeration order, each with its record. */
  type Entries = seq<(LineId, LineRecord)>

  /** A JavaScript object has each key once. */
  predicate UniqueKeys(es: Entries) {
    forall i, j :: 0 <= i < j < |es| ==> es[i].0 != es[j].0
  }

  function Keys(es: Entries): (ks: seq<LineId>)
    ensures |ks| == |es| && forall i :: 0 <= i < |es| ==> ks[i] == es[i].0
  {
    seq(|es|, i requires 0 <= i < |es| => es[i].0)
  }

  /** The object the entries list. */
  function ToMap(es: Entries): (m: map<LineId, LineRecord>)
    requires UniqueKeys(es)
    ensures m.Keys == set i | 0 <= i < |es| :: es[i].0
    ensures forall i :: 0 <= i < |es| ==> m[es[i].0] == es[i].1
    decreases |es|
  {
    if |es| == 0 then map[]
    else
      var m := ToMap(es[..|es| - 1]);
      assert forall i :: 0 <= i < |es| - 1 ==> es[..|es| - 1][i] == es[i];
      m[es[|es| - 1].0 := es[|es| - 1].1]
  }

  /** How fetching one line's schedule turns out. */
  type Fetch = LineId -> Outcome<Result<Timetable>>

  /** The responses of Store.js:38-43: one per catalogue key, in key order,
      each paired with its line. */
  function FanOut(keys: seq<LineId>, fetch: Fetch): (rs: seq<(LineId, Outcome<Result<Timetable>>)>)
    ensures |rs| == |keys|
    ensures forall i :: 0 <= i < |keys| ==> rs[i] == (keys[i], fetch(keys[i]))
  {
    seq(|keys|, i requires 0 <= i < |keys| => (keys[i], fetch(keys[i])))
  }

  /** `Promise.all`: every response when none rejected, nothing otherwise. */
  function AwaitAll(rs: seq<(LineId, Outcome<Result<Timetable>>)>): (all: Option<seq<(LineId, Result<Timetable>)>>)
    ensures all.Some? <==> forall i :: 0 <= i < |rs| ==> rs[i].1.Returned?
    ensures all.Some? ==>
      && |all.value| == |rs|
      && forall i :: 0 <= i < |rs| ==> all.value[i] == (rs[i].0, rs[i].1.result)
  {
    if forall i :: 0 <= i < |rs| ==> rs[i].1.Returned? then
      Some(seq(|rs|, i requires 0 <= i < |rs| => (rs[i].0, rs[i].1.result)))
    else
      None
  }

  /** The loop of Store.js:44-49: write each schedule in order, and stop at
      the first error record (the `throw` that leaves the loop). */
  function Apply(schedules: map<LineId, Timetable>, rs: seq<(LineId, Result<Timetable>)>): (m: map<LineId, Timetable>)
    ensures schedules.Keys <= m.Keys
    ensures forall k :: k in m && (k !in schedules || m[k] != schedules[k]) ==>
      exists i :: 0 <= i < |rs| && rs[i] == (k, Ok(m[k]))
    decreases |rs|
  {
    if |rs| == 0 || rs[0].1.Err? then schedules
    else
      var m := Apply(schedules[rs[0].0 := rs[0].1.value], rs[1..]);
      assert forall i :: 1 <= i < |rs| ==> rs[1..][i - 1] == rs[i];
      m
  }

  /** `Store.refresh` (Store.js:28-56). Every failure is caught, so it always
      yields a state. A failed catalogue fetch leaves the state as it was;
      otherwise the catalogue is replaced first, and schedules are written
      only when no schedule fetch threw, and then only up to the first
      error record. */
  function Refresh(d: Data, fetched: Outcome<Result<Entries>>, fetch: Fetch): (d': Data)
    requires fetched.Returned? && fetched.result.Ok? ==> UniqueKeys(fetched.result.value)
    ensures !(fetched.Returned? && fetched.result.Ok?) ==> d' == d
    ensures fetched.Returned? && fetched.result.Ok? ==> d'.lines == ToMap(fetched.result.value)
    ensures d.schedules.Keys <= d'.schedules.Keys
    ensures forall k :: k in d'.schedules && (k !in d.schedules || d'.schedules[k] != d.schedules[k]) ==>
      && fetched.Returned? && fetched.result.Ok?
      && k in d'.lines
      && fetch(k) == Returned(Ok(d'.schedules[k]))
  {
    match fetched
    case Threw(_) => d
    case Returned(Err(_)) => d
    case Returned(Ok(es)) =>
      var lines := ToMap(es);
      match AwaitAll(FanOut(Keys(es), fetch))
      case None => Data(lines, d.schedules)
      case Some(rs) =>
        var schedules := Apply(d.schedules, rs);
        assert forall k :: k in schedules && (k !in d.schedules || schedules[k] != d.schedules[k]) ==>
          k in lines && fetch(k) == Returned(Ok(schedules[k])) by {
          forall k | k in schedules && (k !in d.schedules || schedules[k] != d.schedules[k])
            ensures k in lines && fetch(k) == Returned(Ok(schedules[k]))
          {
            var i :| 0 <= i < |rs| && rs[i] == (k, Ok(schedules[k]));
            assert es[i].0 == k;
          }
        }
        Data(lines, schedules)
  }

  /** The position of the first error record, or the number of responses
      when there is none. */
  function FirstError(rs: seq<(LineId, Result<Timetable>)>): (n: nat)
    ensures n <= |rs|
    ensures forall i :: 0 <= i < n ==> rs[i].1.Ok?
    ensures n < |rs| ==> rs[n].1.Err?
    decreases |rs|
  {
    if |rs| == 0 || rs[0].1.Err? then 0
    else
      var n := FirstError(rs[1..]);
      assert forall i :: 1 <= i < |rs| ==> rs[1..][i - 1] == rs[i];
      1 + n
  }

  /** A key none of the responses before the first error record names is
      left as it was, present or absent. */
  lemma {:induction false} ApplyKeeps(schedules: map<LineId, Timetable>, rs: seq<(LineId, Result<Timetable>)>, k: LineId)
    requires forall i :: 0 <= i < FirstError(rs) ==> rs[i].0 != k
    ensures k in Apply(schedules, rs) <==> k in schedules
    ensures k in schedules ==> Apply(schedules, rs)[k] == schedules[k]
    decreases |rs|
  {
    if |rs| > 0 && rs[0].1.Ok? {
      var next := schedules[rs[0].0 := rs[0].1.value];
      assert rs[0].0 != k;
      forall i | 0 <= i < FirstError(rs[1..])
        ensures rs[1..][i].0 != k
      {
        assert rs[1..][i] == rs[i + 1];
      }
      ApplyKeeps(next, rs[1..], k);
    }
  }

  /** With each line once, every response before the first error record is
      written. */
  lemma {:induction false} ApplyWrites(schedules: map<LineId, Timetable>, rs: seq<(LineId, Result<Timetable>)>, i: nat)
    requires forall a, b :: 0 <= a < b < |rs| ==> rs[a].0 != rs[b].0
    requires i < FirstError(rs)
    ensures rs[i].0 in Apply(schedules, rs) && Apply(schedules, rs)[rs[i].0] == rs[i].1.value
    decreases i
  {
    var next := schedules[rs[0].0 := rs[0].1.value];
    var tail := rs[1..];
    assert FirstError(rs) == 1 + FirstError(tail);
    if i == 0 {
      forall j | 0 <= j < FirstError(tail)
        ensures tail[j].0 != rs[0].0
      {
        assert tail[j] == rs[j + 1];
      }
      ApplyKeeps(next, tail, rs[0].0);
    } else {
      forall a, b | 0 <= a < b < |tail|
        ensures tail[a].0 != tail[b].0
      {
        assert tail[a] == rs[a + 1] && tail[b] == rs[b + 1];
      }
      ApplyWrites(next, tail, i - 1);
      assert tail[i - 1] == rs[i];
    }
  }

  /** The awaited responses when no schedule fetch threw. */
  function Responses(es: Entries, fetch: Fetch): (rs: seq<(LineId, Result<Timetable>)>)
    requires forall i :: 0 <= i < |es| ==> fetch(es[i].0).Returned?
    ensures |rs| == |es|
    ensures forall i :: 0 <= i < |es| ==> rs[i] == (es[i].0, fetch(es[i].0).result)
  {
    seq(|es|, i requires 0 <= i < |es| => (es[i].0, fetch(es[i].0).result))
  }

  /** `Promise.all` over the fetches resolves with their results in key
      order when none of them threw. */
  lemma AwaitAllReturned(es: Entries, fetch: Fetch)
    requires forall i :: 0 <= i < |es| ==> fetch(es[i].0).Returned?
    ensures AwaitAll(FanOut(Keys(es), fetch)) == Some(Responses(es, fetch))
  {
    var rs := FanOut(Keys(es), fetch);
    forall i | 0 <= i < |rs|
      ensures rs[i].1.Returned? && rs[i].1.result == fetch(es[i].0).result && rs[i].0 == es[i].0
    {
      assert rs[i] == (Keys(es)[i], fetch(Keys(es)[i]));
    }
    var all := AwaitAll(rs).value;
    var want := Responses(es, fetch);
    assert |all| == |want|;
    forall i | 0 <= i < |all|
      ensures all[i] == want[i]
    {
    }
    assert all == want;
  }

  lemma RefreshApplies(d: Data, es: Entries, fetch: Fetch)
    requires UniqueKeys(es)
    requires forall i :: 0 <= i < |es| ==> fetch(es[i].0).Returned?
    ensures Refresh(d, Returned(Ok(es)), fetch) == Data(ToMap(es), Apply(d.schedules, Responses(es, fetch)))
  {
    AwaitAllReturned(es, fetch);
  }

  /** Store.js:44-49 on a successful catalogue when no fetch threw: the
      catalogue stays replaced, and the schedule of every line before the
      first error record is its fetched schedule. */
  lemma RefreshWritesUntilFirstError(d: Data, es: Entries, fetch: Fetch)
    requires UniqueKeys(es)
    requires forall i :: 0 <= i < |es| ==> fetch(es[i].0).Returned?
    ensures Refresh(d, Returned(Ok(es)), fetch).lines == ToMap(es)
    ensures FirstError(Responses(es, fetch)) < |es| ==>
      fetch(es[FirstError(Responses(es, fetch))].0).result.Err?
    ensures forall i :: 0 <= i < FirstError(Responses(es, fetch)) ==>
      && fetch(es[i].0).result.Ok?
      && es[i].0 in Refresh(d, Returned(Ok(es)), fetch).schedules
      && Refresh(d, Returned(Ok(es)), fetch).schedules[es[i].0] == fetch(es[i].0).result.value
  {
    RefreshApplies(d, es, fetch);
    var rs := Responses(es, fetch);
    var m := Apply(d.schedules, rs);
    forall i | 0 <= i < FirstError(rs)
      ensures es[i].0 in m && m[es[i].0] == fetch(es[i].0).result.value
    {
      ApplyWrites(d.schedules, rs, i);
    }
  }

  /** ... and every key that no line before the first error record names,
      the erring line and those after it included, keeps what it had,
      present or absent. */
  lemma RefreshKeepsFromFirstError(d: Data, es: Entries, fetch: Fetch, k: LineId)
    requires UniqueKeys(es)
    requires forall i :: 0 <= i < |es| ==> fetch(es[i].0).Returned?
    requires forall i :: 0 <= i < FirstError(Responses(es, fetch)) ==> es[i].0 != k
    ensures k in Refresh(d, Returned(Ok(es)), fetch).schedules <==> k in d.schedules
    ensures k in d.schedules ==> Refresh(d, Returned(Ok(es)), fetch).schedules[k] == d.schedules[k]
  {
    RefreshApplies(d, es, fetch);
    ApplyKeeps(d.schedules, Responses(es, fetch), k);
  }

  /** If any schedule fetch threw, `Promise.all` rejects before the loop
      runs: the catalogue is replaced but no schedule is written. */
  lemma RefreshThrownKeepsSchedules(d: Data, es: Entries, fetch: Fetch, i: nat)
    requires UniqueKeys(es)
    requires i < |es| && fetch(es[i].0).Threw?
    ensures Refresh(d, Returned(Ok(es)), fetch) == Data(ToMap(es), d.schedules)
  {
    assert FanOut(Keys(es), fetch)[i].1.Threw?;
  }

  /** The refresh is not all-or-nothing: when the first of two lines is
      fetched and the second answers with an error, the first line's
      schedule is written and stays. */
  lemma PartialRefresh(a: LineId, b: LineId, ra: LineRecord, rb: LineRecord, s: Timetable, e: HttpError, fetch: Fetch)
    requires a != b
    requires fetch(a) == Returned(Ok(s)) && fetch(b) == Returned(Err(e))
    ensures Refresh(Initial(), Returned(Ok([(a, ra), (b, rb)])), fetch)
      == Data(map[a := ra, b := rb], map[a := s])
  {
    var es: Entries := [(a, ra), (b, rb)];
    RefreshWritesUntilFirstError(Initial(), es, fetch);
    RefreshKeepsFromFirstError(Initial(), es, fetch, b);
    var d' := Refresh(Initial(), Returned(Ok(es)), fetch);
    var rs := Responses(es, fetch);
    assert rs[1..][0].1.Err?;
    assert FirstError(rs) == 1;
    assert d'.schedules.Keys == {a};
  }
}
