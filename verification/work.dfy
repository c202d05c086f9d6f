/**
 * WorkManager as the download core uses it: `Data` key/value bags, the
 * `WorkInfo` records the registry reports, and the registry operations
 * (`cancelAllWorkByTag`, `enqueue`, `enqueueUniqueWork` with REPLACE).
 */
module Work {
  import opened Wrappers

  datatype State = Enqueued | Running | Succeeded | Failed | Blocked | Cancelled {
    predicate IsFinished() {
      this == Succeeded || this == Failed || this == Cancelled
    }
  }

  /** The value kinds a WorkManager `Data` bag holds. */
  datatype Value = IntV(i: int) | LongV(l: int) | BoolV(b: bool) | StrV(s: string) | StrArrayV(a: seq<string>)

  type Data = map<string, Value>

  /** `Data.getString(key)`: null unless the key holds a string. */
  function GetString(d: Data, key: string): (r: Option<string>)
    ensures r.Some? <==> key in d && d[key].StrV?
    ensures r.Some? ==> d[key] == StrV(r.value)
  {
    if key in d && d[key].StrV? then Some(d[key].s) else None
  }

  /** `Data.getInt(key, default)`: the default unless the key holds an int. */
  function GetInt(d: Data, key: string, default: int): (r: int)
    ensures key in d && d[key].IntV? ==> r == d[key].i
    ensures !(key in d && d[key].IntV?) ==> r == default
  {
    if key in d && d[key].IntV? then d[key].i else default
  }

  /** `Data.getLong(key, default)`: the default unless the key holds a long. */
  function GetLong(d: Data, key: string, default: int): (r: int)
    ensures key in d && d[key].LongV? ==> r == d[key].l
    ensures !(key in d && d[key].LongV?) ==> r == default
  {
    if key in d && d[key].LongV? then d[key].l else default
  }

  /** `Data.getStringArray(key)`. */
  function GetStringArray(d: Data, key: string): (r: Option<seq<string>>)
    ensures r.Some? <==> key in d && d[key].StrArrayV?
  {
    if key in d && d[key].StrArrayV? then Some(d[key].a) else None
  }

  /** One work request as the registry stores it. */
  datatype WorkInfo = WorkInfo(
    id: nat,
    state: State,
    tags: set<string>,
    uniqueName: Option<string>,
    requiresNetwork: bool,
    input: Data,
    progress: Data,
    output: Data)

  /** The registry: every request it remembers, oldest first, and the next request id. */
  datatype Registry = Registry(works: seq<WorkInfo>, nextId: nat)

  /** Works carrying `tag`, in registry order (`getWorkInfosByTag`). */
  function ByTag(ws: seq<WorkInfo>, tag: string): (r: seq<WorkInfo>)
    ensures |r| <= |ws|
    ensures forall k :: 0 <= k < |r| ==> tag in r[k].tags && r[k] in ws
    ensures forall w :: w in ws && tag in w.tags ==> w in r
  {
    if |ws| == 0 then []
    else if tag in ws[0].tags then [ws[0]] + ByTag(ws[1..], tag)
    else ByTag(ws[1..], tag)
  }

  /** A work that is not finished moves to CANCELLED; finished ones stay. */
  function CancelWork(w: WorkInfo): WorkInfo {
    if w.state.IsFinished() then w else w.(state := Cancelled)
  }

  /** `cancelAllWorkByTag(tag)`. */
  function CancelByTag(ws: seq<WorkInfo>, tag: string): (r: seq<WorkInfo>)
    ensures |r| == |ws|
    ensures forall k :: 0 <= k < |ws| && tag !in ws[k].tags ==> r[k] == ws[k]
    ensures forall k :: 0 <= k < |ws| && tag in ws[k].tags ==>
      r[k] == ws[k].(state := r[k].state) && r[k].state.IsFinished()
      && (ws[k].state.IsFinished() ==> r[k].state == ws[k].state)
  {
    seq(|ws|, k requires 0 <= k < |ws| => if tag in ws[k].tags then CancelWork(ws[k]) else ws[k])
  }

  /**
   * `pruneWork()`: every finished work (SUCCEEDED, FAILED or CANCELLED) leaves
   * the registry. No work here has dependents, so every finished one is
   * eligible; the survivors keep their order.
   */
  function Prune(ws: seq<WorkInfo>): (r: seq<WorkInfo>)
    ensures |r| <= |ws|
    ensures forall w :: w in r <==> w in ws && !w.state.IsFinished()
  {
    if |ws| == 0 then []
    else
      assert ws == [ws[0]] + ws[1..];
      if ws[0].state.IsFinished() then Prune(ws[1..]) else [ws[0]] + Prune(ws[1..])
  }

  /** Pruning a registry with nothing finished changes nothing, and pruning twice is pruning once. */
  lemma {:induction false} PruneKeepsActive(ws: seq<WorkInfo>)
    ensures (forall k :: 0 <= k < |ws| ==> !ws[k].state.IsFinished()) ==> Prune(ws) == ws
    ensures Prune(Prune(ws)) == Prune(ws)
  {
    if |ws| > 0 {
      PruneKeepsActive(ws[1..]);
      if !ws[0].state.IsFinished() {
        var t := Prune(ws[1..]);
        assert ([ws[0]] + t)[0] == ws[0] && ([ws[0]] + t)[1..] == t;
      }
    }
  }

  /** Unfinished works under a unique name are cancelled before the replacement is added. */
  function CancelByName(ws: seq<WorkInfo>, name: string): (r: seq<WorkInfo>)
    ensures |r| == |ws|
    ensures forall k :: 0 <= k < |ws| && ws[k].uniqueName != Some(name) ==> r[k] == ws[k]
    ensures forall k :: 0 <= k < |ws| && ws[k].uniqueName == Some(name) ==>
      r[k] == ws[k].(state := r[k].state) && r[k].state.IsFinished()
  {
    seq(|ws|, k requires 0 <= k < |ws| => if ws[k].uniqueName == Some(name) then CancelWork(ws[k]) else ws[k])
  }

  /** A fresh request as `OneTimeWorkRequestBuilder(...).build()` makes it. */
  function NewRequest(id: nat, tags: set<string>, uniqueName: Option<string>, input: Data): WorkInfo {
    WorkInfo(id, Enqueued, tags, uniqueName, true, input, map[], map[])
  }

  /** `enqueue(request)`. */
  function Enqueue(reg: Registry, tags: set<string>, input: Data): (r: Registry)
    ensures r.works == reg.works + [NewRequest(reg.nextId, tags, None, input)]
    ensures r.nextId > reg.nextId
  {
    Registry(reg.works + [NewRequest(reg.nextId, tags, None, input)], reg.nextId + 1)
  }

  /** `enqueueUniqueWork(name, REPLACE, request)`. */
  function EnqueueUniqueReplace(reg: Registry, name: string, tags: set<string>, input: Data): (r: Registry)
    ensures |r.works| == |reg.works| + 1
    ensures r.works[|reg.works|] == NewRequest(reg.nextId, tags, Some(name), input)
    ensures r.nextId > reg.nextId
  {
    Registry(CancelByName(reg.works, name) + [NewRequest(reg.nextId, tags, Some(name), input)], reg.nextId + 1)
  }
}
