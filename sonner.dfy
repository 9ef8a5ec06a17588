/** The toast queue of `app-sonner`: two lists shared by the whole page, the
    toasts waiting to be shown (`toastQueue`) and the toasts on screen
    (`toasts`), moved from one to the other one at a time while an
    `app-sonner` element is in the document. The timers the source starts
    with `setTimeout` are kept as a list of pending callbacks that the host
    fires one at a time. */
module Sonner {
  import opened Seqs

  /** A toast object. `handle` stands for the object's identity, which
      `indexOf` compares; `id` is the value `dismiss` looks for. */
  datatype Toast = Toast(handle: nat, id: int, kind: string, title: string, message: string, duration: int)

  /** The caller's options object: each field may be absent. */
  datatype ShowOptions = ShowOptions(
    id: Option<int>, kind: Option<string>, title: Option<string>,
    message: Option<string>, duration: Option<int>)

  /** A callback waiting in a `setTimeout`: the automatic removal of a toast
      after its duration, or the queue drain 100 ms after a removal. */
  datatype Timer = AutoRemove(toast: Toast) | Drain

  /** The toast `show` builds: the defaults (a generated id, type `info`,
      empty title and message, 4000 ms), each overridden by the option the
      caller gave. */
  function MakeToast(handle: nat, generatedId: int, opts: ShowOptions): (t: Toast)
    ensures t.handle == handle
    ensures t.id == (if opts.id.Some? then opts.id.value else generatedId)
    ensures t.kind == (if opts.kind.Some? then opts.kind.value else "info")
    ensures t.title == (if opts.title.Some? then opts.title.value else "")
    ensures t.message == (if opts.message.Some? then opts.message.value else "")
    ensures t.duration == (if opts.duration.Some? then opts.duration.value else 4000)
  {
    Toast(handle,
          if opts.id.Some? then opts.id.value else generatedId,
          if opts.kind.Some? then opts.kind.value else "info",
          if opts.title.Some? then opts.title.value else "",
          if opts.message.Some? then opts.message.value else "",
          if opts.duration.Some? then opts.duration.value else 4000)
  }

  /** The options `success`, `error`, `info` and `warning` pass to `show`:
      their type, title, message and duration, and no id. */
  function KindOptions(kind: string, title: string, message: string, duration: int): (o: ShowOptions)
    ensures o.id.None?
  {
    ShowOptions(None, Some(kind), Some(title), Some(message), Some(duration))
  }

  /** A shortcut's toast carries the generated id and exactly the fields
      the shortcut was given. */
  lemma ShortcutToast(handle: nat, generatedId: int, kind: string, title: string, message: string, duration: int)
    ensures MakeToast(handle, generatedId, KindOptions(kind, title, message, duration))
         == Toast(handle, generatedId, kind, title, message, duration)
  {
  }

  /** The four icons of `getIcon`. */
  datatype Icon = SuccessIcon | ErrorIcon | InfoIcon | WarningIcon

  /** `getIcon`: the icon of a type, the info icon for any other type. */
  function GetIcon(kind: string): (i: Icon)
    ensures kind !in {"success", "error", "warning"} ==> i == InfoIcon
    ensures i == SuccessIcon <==> kind == "success"
    ensures i == ErrorIcon <==> kind == "error"
    ensures i == WarningIcon <==> kind == "warning"
  {
    if kind == "success" then SuccessIcon
    else if kind == "error" then ErrorIcon
    else if kind == "warning" then WarningIcon
    else InfoIcon
  }

  /** Handles strictly increase along the list, so no toast is listed twice
      and the list is in creation order. */
  predicate Increasing(s: seq<Toast>)
  {
    forall i, j :: 0 <= i < j < |s| ==> s[i].handle < s[j].handle
  }

  /** In a list with increasing handles each toast is found at its own
      position. */
  lemma IncreasingIndexOf(s: seq<Toast>, k: nat)
    requires Increasing(s) && k < |s|
    ensures IndexOf(s, s[k]) == k
  {
    forall j | 0 <= j < k ensures s[j] != s[k] {
      assert s[j].handle < s[k].handle;
    }
    IndexOfAt(s, k, s[k]);
  }

  /** The position of the first toast with this `id` (`toasts.find`), or -1. */
  function IndexOfId(s: seq<Toast>, id: int): (k: int)
    ensures -1 <= k < |s|
    ensures k >= 0 ==> s[k].id == id && forall j :: 0 <= j < k ==> s[j].id != id
    ensures k == -1 ==> forall j :: 0 <= j < |s| ==> s[j].id != id
  {
    if s == [] then -1
    else if s[0].id == id then 0
    else
      var k := IndexOfId(s[1..], id);
      if k == -1 then -1 else k + 1
  }

  /** The toasts `clear` leaves on screen: the 2nd, 4th, 6th... because each
      removal shifts the rest of the list under the running `forEach`. */
  function ClearSurvivors(s: seq<Toast>): (r: seq<Toast>)
    ensures |r| == |s| / 2
    ensures forall k :: 0 <= k < |r| ==> r[k] == s[2 * k + 1]
  {
    seq(|s| / 2, k requires 0 <= k < |s| / 2 => s[2 * k + 1])
  }

  /** `n` pending queue drains. */
  function Drains(n: nat): (r: seq<Timer>)
    ensures |r| == n && forall k :: 0 <= k < n ==> r[k] == Drain
  {
    seq(n, _ => Drain)
  }

  /** The state of the screen list after the first `i` rounds of the
      `forEach` in `clear`, started on `orig`: while less than half the list
      is processed, the kept toasts are followed by the untouched tail;
      after that, only the kept toasts remain. */
  ghost predicate ClearedUpTo(orig: seq<Toast>, cur: seq<Toast>, i: nat)
  {
    var n := |orig|;
    && (2 * i <= n ==> |cur| == n - i && forall k :: i <= k < n - i ==> cur[k] == orig[k + i])
    && (2 * i > n ==> |cur| == n / 2)
    && (forall k :: 0 <= k < i && k < |cur| ==> cur[k] == orig[2 * k + 1])
  }

  /** The number of `removeToast` calls in the first `i` rounds on a list
      of `n` toasts. */
  function ClearRemovals(n: nat, i: nat): nat
  {
    if i < (n + 1) / 2 then i else (n + 1) / 2
  }

  /** One round of the `forEach`: at position `i` the toast there, if any,
      is removed. */
  lemma ClearStep(orig: seq<Toast>, cur: seq<Toast>, i: nat)
    requires i < |orig| && ClearedUpTo(orig, cur, i)
    ensures i < |cur| <==> 2 * i < |orig|
    ensures i < |cur| ==> ClearedUpTo(orig, RemoveAt(cur, i), i + 1)
    ensures i >= |cur| ==> ClearedUpTo(orig, cur, i + 1)
    ensures ClearRemovals(|orig|, i + 1) == ClearRemovals(|orig|, i) + (if i < |cur| then 1 else 0)
  {
  }

  /** After all rounds the survivors are the toasts at odd positions. */
  lemma ClearDone(orig: seq<Toast>, cur: seq<Toast>)
    requires ClearedUpTo(orig, cur, |orig|)
    ensures cur == ClearSurvivors(orig)
  {
  }

  lemma DrainsSnoc(n: nat)
    ensures Drains(n + 1) == Drains(n) + [Drain]
  {
  }

  class ToastCenter {
    /** `AppSonner.toastQueue`: accepted, not yet shown. */
    var toastQueue: seq<Toast>
    /** `AppSonner.toasts`: on screen. */
    var toasts: seq<Toast>
    /** `document.querySelector('app-sonner')` finds an element. */
    var attached: bool
    /** Callbacks scheduled with `setTimeout` and not yet run. */
    var timers: seq<Timer>
    /** The identity the next toast object gets. */
    var nextHandle: nat
    /** Every toast `show` created, in order. */
    ghost var enqueued: seq<Toast>
    /** Every toast `processQueue` moved on screen, in order. */
    ghost var shown: seq<Toast>

    /** Shown toasts are a prefix of the created ones and the queue is the
        rest (first in, first out); handles are fresh; the toasts on
        screen are shown ones in creation order. */
    ghost predicate Valid()
      reads this
    {
      && enqueued == shown + toastQueue
      && Increasing(enqueued)
      && (forall i :: 0 <= i < |enqueued| ==> enqueued[i].handle < nextHandle)
      && Increasing(toasts)
      && (forall i :: 0 <= i < |toasts| ==> toasts[i] in shown)
    }

    constructor ()
      ensures Valid()
      ensures toastQueue == [] && toasts == [] && timers == [] && !attached
    {
      toastQueue := [];
      toasts := [];
      attached := false;
      timers := [];
      nextHandle := 0;
      enqueued := [];
      shown := [];
    }

    /** An `app-sonner` element enters or leaves the document. Nothing is
        drained on attaching: the queue moves at the next `show` or drain. */
    method SetAttached(present: bool)
      requires Valid()
      modifies this`attached
      ensures Valid() && attached == present
    {
      attached := present;
    }

    /** `processQueue`: with a container and a waiting toast, the head of the
        queue goes to the end of the screen list, and a removal is
        scheduled when its duration is positive. */
    method ProcessQueue()
      requires Valid()
      modifies this
      ensures Valid()
      ensures attached == old(attached) && nextHandle == old(nextHandle) && enqueued == old(enqueued)
      ensures !old(attached) || old(toastQueue) == [] ==>
        toastQueue == old(toastQueue) && toasts == old(toasts) && timers == old(timers) && shown == old(shown)
      ensures old(attached) && old(toastQueue) != [] ==>
        var t := old(toastQueue)[0];
        && toastQueue == old(toastQueue)[1..]
        && toasts == old(toasts) + [t]
        && shown == old(shown) + [t]
        && timers == old(timers) + (if t.duration > 0 then [AutoRemove(t)] else [])
    {
      if !attached || toastQueue == [] {
        return;
      }
      var t := toastQueue[0];
      assert shown + [t] + toastQueue[1..] == enqueued;
      assert t == enqueued[|shown|];
      forall i | 0 <= i < |toasts| ensures toasts[i].handle < t.handle {
        var j :| 0 <= j < |shown| && shown[j] == toasts[i];
        assert enqueued[j] == shown[j];
      }
      toastQueue := toastQueue[1..];
      toasts := toasts + [t];
      shown := shown + [t];
      if t.duration > 0 {
        timers := timers + [AutoRemove(t)];
      }
    }

    /** `show`: a new toast joins the end of the queue, the queue is
        processed once, and the toast's id is returned. */
    method Show(opts: ShowOptions, generatedId: int) returns (id: int)
      requires Valid()
      modifies this
      ensures Valid()
      ensures var t := MakeToast(old(nextHandle), generatedId, opts);
        var queued := old(toastQueue) + [t];
        && id == t.id
        && enqueued == old(enqueued) + [t]
        && (!attached ==> toastQueue == queued && toasts == old(toasts) && timers == old(timers))
        && (attached ==>
              && toastQueue == queued[1..]
              && toasts == old(toasts) + [queued[0]]
              && timers == old(timers) + (if queued[0].duration > 0 then [AutoRemove(queued[0])] else []))
      ensures attached == old(attached)
    {
      var t := MakeToast(nextHandle, generatedId, opts);
      nextHandle := nextHandle + 1;
      toastQueue := toastQueue + [t];
      enqueued := enqueued + [t];
      ProcessQueue();
      id := t.id;
    }

    /** `removeToast`: the toast leaves the screen list if it is there, the
        others keep their order; with a container present a drain is
        scheduled either way. */
    method RemoveToast(t: Toast)
      requires Valid()
      modifies this
      ensures Valid()
      ensures toastQueue == old(toastQueue) && attached == old(attached) && nextHandle == old(nextHandle)
      ensures enqueued == old(enqueued) && shown == old(shown)
      ensures t in old(toasts) ==> toasts == RemoveAt(old(toasts), IndexOf(old(toasts), t))
      ensures t !in old(toasts) ==> toasts == old(toasts)
      ensures t !in toasts
      ensures timers == old(timers) + (if attached then [Drain] else [])
    {
      var index := IndexOf(toasts, t);
      if index > -1 {
        ghost var before := toasts;
        toasts := RemoveAt(toasts, index);
        forall k | 0 <= k < |toasts| ensures toasts[k] in shown && toasts[k].handle != t.handle {
          if k < index { assert toasts[k] == before[k]; } else { assert toasts[k] == before[k + 1]; }
        }
      }
      if attached {
        timers := timers + [Drain];
      }
    }

    /** `dismiss`: removes the first toast on screen with this id; an id
        that is unknown or still queued changes nothing. */
    method Dismiss(id: int)
      requires Valid()
      modifies this
      ensures Valid()
      ensures toastQueue == old(toastQueue) && attached == old(attached)
      ensures var k := IndexOfId(old(toasts), id);
        && (k >= 0 ==> toasts == RemoveAt(old(toasts), k)
                       && timers == old(timers) + (if attached then [Drain] else []))
        && (k == -1 ==> toasts == old(toasts) && timers == old(timers))
    {
      var k := IndexOfId(toasts, id);
      if k >= 0 {
        var t := toasts[k];
        IncreasingIndexOf(toasts, k);
        RemoveToast(t);
      }
    }

    /** `clear`: `forEach` over the screen list calling `removeToast`, which
        splices that same list. The queue is untouched. */
    method Clear()
      requires Valid()
      modifies this
      ensures Valid()
      ensures toastQueue == old(toastQueue) && attached == old(attached)
      ensures toasts == ClearSurvivors(old(toasts))
      ensures timers == old(timers) + (if attached then Drains((|old(toasts)| + 1) / 2) else [])
    {
      var n := |toasts|;
      var i := 0;
      while i < n
        invariant Valid()
        invariant 0 <= i <= n
        invariant toastQueue == old(toastQueue) && attached == old(attached)
        invariant ClearedUpTo(old(toasts), toasts, i)
        invariant timers == old(timers) + (if attached then Drains(ClearRemovals(n, i)) else [])
      {
        DrainsSnoc(ClearRemovals(n, i));
        ClearRound(old(toasts), i);
        i := i + 1;
      }
      ClearDone(old(toasts), toasts);
    }

    /** One round of the `forEach` in `clear`, at position `i` of the list
        as it now stands: the toast there, if any, is removed. */
    method ClearRound(ghost orig: seq<Toast>, i: nat)
      requires Valid() && i < |orig| && ClearedUpTo(orig, toasts, i)
      modifies this
      ensures Valid()
      ensures toastQueue == old(toastQueue) && attached == old(attached)
      ensures ClearedUpTo(orig, toasts, i + 1)
      ensures ClearRemovals(|orig|, i + 1) == ClearRemovals(|orig|, i) + (if 2 * i < |orig| then 1 else 0)
      ensures timers == old(timers) + (if attached && 2 * i < |orig| then [Drain] else [])
    {
      ClearStep(orig, toasts, i);
      if i < |toasts| {
        IncreasingIndexOf(toasts, i);
        RemoveToast(toasts[i]);
      }
    }

    /** A pending timer fires: an automatic removal removes its toast (a
        no-op when it is already gone), a drain processes the queue. */
    method Fire(k: nat)
      requires Valid()
      requires k < |timers|
      modifies this
      ensures Valid()
      ensures attached == old(attached)
      ensures old(timers)[k].AutoRemove? ==>
        var t := old(timers)[k].toast;
        && toastQueue == old(toastQueue)
        && (t in old(toasts) ==> toasts == RemoveAt(old(toasts), IndexOf(old(toasts), t)))
        && (t !in old(toasts) ==> toasts == old(toasts))
        && timers == RemoveAt(old(timers), k) + (if attached then [Drain] else [])
      ensures old(timers)[k].Drain? && (!attached || old(toastQueue) == []) ==>
        toastQueue == old(toastQueue) && toasts == old(toasts) && timers == RemoveAt(old(timers), k)
      ensures old(timers)[k].Drain? && attached && old(toastQueue) != [] ==>
        var t := old(toastQueue)[0];
        && toastQueue == old(toastQueue)[1..]
        && toasts == old(toasts) + [t]
        && timers == RemoveAt(old(timers), k) + (if t.duration > 0 then [AutoRemove(t)] else [])
    {
      var timer := timers[k];
      timers := RemoveAt(timers, k);
      match timer {
        case AutoRemove(t) => RemoveToast(t);
        case Drain => ProcessQueue();
      }
    }
  }

  /** No toast is both waiting and on screen. */
  lemma QueueAndScreenDisjoint(c: ToastCenter)
    requires c.Valid()
    ensures forall i, j :: 0 <= i < |c.toasts| && 0 <= j < |c.toastQueue| ==> c.toasts[i] != c.toastQueue[j]
  {
    forall i, j | 0 <= i < |c.toasts| && 0 <= j < |c.toastQueue|
      ensures c.toasts[i] != c.toastQueue[j]
    {
      var m :| 0 <= m < |c.shown| && c.shown[m] == c.toasts[i];
      assert c.enqueued[m] == c.shown[m];
      assert c.enqueued[|c.shown| + j] == c.toastQueue[j];
    }
  }

  /** The toasts on screen appear in the order they were created. */
  lemma ScreenInCreationOrder(c: ToastCenter, i: int, j: int)
    requires c.Valid()
    requires 0 <= i < j < |c.toasts|
    ensures exists a, b :: 0 <= a < b < |c.enqueued| && c.enqueued[a] == c.toasts[i] && c.enqueued[b] == c.toasts[j]
  {
    var a :| 0 <= a < |c.shown| && c.shown[a] == c.toasts[i];
    var b :| 0 <= b < |c.shown| && c.shown[b] == c.toasts[j];
    assert c.enqueued[a] == c.shown[a] && c.enqueued[b] == c.shown[b];
  }

  /** Two toasts with durations 0 and 100 under a present container reach
      the screen in order, and only the second one has a timer. */
  method ShowTwo(c: ToastCenter)
    requires c.Valid() && c.attached && c.toastQueue == [] && c.toasts == [] && c.timers == []
    modifies c
    ensures c.Valid() && c.attached && c.toastQueue == []
    ensures |c.toasts| == 2 && c.toasts[0].title == "A" && c.toasts[1].title == "B"
    ensures c.timers == [AutoRemove(c.toasts[1])]
  {
    var a := c.Show(ShowOptions(None, None, Some("A"), None, Some(0)), 1);
    var b := c.Show(ShowOptions(None, None, Some("B"), None, Some(100)), 2);
  }

  /** A third toast without duration joins them, with no timer of its own. */
  method ShowThree(c: ToastCenter)
    requires c.Valid() && c.attached && c.toastQueue == [] && c.toasts == [] && c.timers == []
    modifies c
    ensures c.Valid() && c.attached && c.toastQueue == []
    ensures |c.toasts| == 3
    ensures c.toasts[0].title == "A" && c.toasts[1].title == "B" && c.toasts[2].title == "C"
    ensures c.timers == [AutoRemove(c.toasts[1])]
  {
    ShowTwo(c);
    var d := c.Show(ShowOptions(None, None, Some("C"), None, Some(0)), 3);
  }

  /** B's timer then removes B, A and C stay, and a drain is scheduled. */
  method ThreeToastScenario(c: ToastCenter)
    requires c.Valid() && c.attached && c.toastQueue == [] && c.toasts == [] && c.timers == []
    modifies c
    ensures |c.toasts| == 2 && c.toasts[0].title == "A" && c.toasts[1].title == "C"
    ensures c.timers == [Drain]
  {
    ShowThree(c);
    ghost var before := c.toasts;
    IncreasingIndexOf(before, 1);
    c.Fire(0);
    assert c.toasts == RemoveAt(before, 1);
  }
}
