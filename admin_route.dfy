/** The admin handlers (src/routes/admin.py): the admin guard, the mailing
    state, the broadcast loop with its counters and progress refreshes, and
    the text progress bar. */
module AdminRoute {
  import opened Wrappers
  import opened Srs
  import opened Fsm

  /** `ADMIN_IDS`. */
  const AdminIds: seq<int> := [6705677631, 7853044770]

  /** `is_admin`. */
  predicate IsAdmin(userId: int)
  {
    userId in AdminIds
  }

  // ---------------------------------------------------------------------
  // Progress bar
  // ---------------------------------------------------------------------

  const Filled: char := '\U{25B0}'
  const Empty: char := '\U{25B1}'

  /** Python's `c * n`: empty for `n <= 0`. */
  function Repeat(c: char, n: int): (r: string)
    ensures |r| == Max(0, n)
    ensures forall i :: 0 <= i < |r| ==> r[i] == c
    decreases n
  {
    if n <= 0 then [] else [c] + Repeat(c, n - 1)
  }

  /** `_progress_bar`: `int(length * percent / 100)` filled symbols, then
      the rest of `length` as empty ones. */
  function ProgressBar(percent: int, length: int): (r: string)
    ensures forall i :: 0 <= i < |r| ==> r[i] == Filled || r[i] == Empty
    ensures 0 <= percent <= 100 && length >= 0 ==> |r| == length
  {
    var filled := TruncDiv(length * percent, 100);
    Repeat(Filled, filled) + Repeat(Empty, length - filled)
  }

  /** For a percentage in [0, 100] the bar has exactly `length` symbols:
      the first `length * percent / 100` (rounded down) filled, the rest
      empty. */
  lemma ProgressBarShape(percent: int, length: nat)
    requires 0 <= percent <= 100
    ensures |ProgressBar(percent, length)| == length
    ensures forall i :: 0 <= i < length ==>
      (ProgressBar(percent, length)[i] == Filled <==> i < length * percent / 100)
    ensures forall i :: 0 <= i < length ==>
      (ProgressBar(percent, length)[i] == Empty <==> i >= length * percent / 100)
  {
    var filled := length * percent / 100;
    assert 0 <= length * percent <= length * 100;
    assert filled <= length;
    var bar := Repeat(Filled, filled) + Repeat(Empty, length - filled);
    forall i | 0 <= i < length
      ensures bar[i] == Filled <==> i < filled
      ensures bar[i] == Empty <==> i >= filled
    {
      if i < filled {
        assert bar[i] == Repeat(Filled, filled)[i];
      } else {
        assert bar[i] == Repeat(Empty, length - filled)[i - filled];
      }
    }
  }

  /** 0% is all empty and 100% is all filled. */
  lemma ProgressBarEnds(length: nat)
    ensures ProgressBar(0, length) == Repeat(Empty, length)
    ensures ProgressBar(100, length) == Repeat(Filled, length)
  {
    assert Repeat(Filled, 0) == [];
    assert Repeat(Empty, 0) == [];
  }

  // ---------------------------------------------------------------------
  // Broadcast
  // ---------------------------------------------------------------------

  /** The outcome of copying the message to one user: delivered, the user
      blocked the bot, a bad request, or any other error. */
  datatype SendResult = Delivered | Forbidden | BadRequest | OtherError

  /** The number of delivered sends. */
  function SentCount(rs: seq<SendResult>): nat
  {
    if rs == [] then 0
    else SentCount(rs[..|rs| - 1]) + (if rs[|rs| - 1] == Delivered then 1 else 0)
  }

  /** The number of sends refused because the user blocked the bot. */
  function BlockedCount(rs: seq<SendResult>): nat
  {
    if rs == [] then 0
    else BlockedCount(rs[..|rs| - 1]) + (if rs[|rs| - 1] == Forbidden then 1 else 0)
  }

  /** The number of failed sends, whatever the error. */
  function FailedCount(rs: seq<SendResult>): nat
  {
    if rs == [] then 0
    else FailedCount(rs[..|rs| - 1]) + (if rs[|rs| - 1] != Delivered then 1 else 0)
  }

  /** Every user is counted once, as sent or as failed, and every blocked
      user is also a failed one. */
  lemma {:induction false} CountsAddUp(rs: seq<SendResult>)
    ensures SentCount(rs) + FailedCount(rs) == |rs|
    ensures BlockedCount(rs) <= FailedCount(rs)
  {
    if rs != [] {
      CountsAddUp(rs[..|rs| - 1]);
    }
  }

  /** The users passed to `mark_user_inactive`, in order: those whose send
      was forbidden. */
  function ForbiddenIds(ids: seq<int>, rs: seq<SendResult>): seq<int>
    requires |ids| == |rs|
  {
    if rs == [] then []
    else
      ForbiddenIds(ids[..|ids| - 1], rs[..|rs| - 1])
        + (if rs[|rs| - 1] == Forbidden then [ids[|ids| - 1]] else [])
  }

  /** Exactly the users whose send was forbidden are marked inactive, once
      per forbidden send. */
  lemma {:induction false} ForbiddenIdsSpec(ids: seq<int>, rs: seq<SendResult>)
    requires |ids| == |rs|
    ensures |ForbiddenIds(ids, rs)| == BlockedCount(rs)
    ensures forall x :: x in ForbiddenIds(ids, rs) <==>
      exists i :: 0 <= i < |rs| && ids[i] == x && rs[i] == Forbidden
  {
    if rs != [] {
      var n := |rs| - 1;
      ForbiddenIdsSpec(ids[..n], rs[..n]);
      forall x
        ensures x in ForbiddenIds(ids, rs) <==> exists i :: 0 <= i < |rs| && ids[i] == x && rs[i] == Forbidden
      {
        if x in ForbiddenIds(ids[..n], rs[..n]) {
          var i :| 0 <= i < n && ids[..n][i] == x && rs[..n][i] == Forbidden;
          assert ids[i] == x && rs[i] == Forbidden;
        }
        if exists i :: 0 <= i < |rs| && ids[i] == x && rs[i] == Forbidden {
          var i :| 0 <= i < |rs| && ids[i] == x && rs[i] == Forbidden;
          if i < n {
            assert ids[..n][i] == x && rs[..n][i] == Forbidden;
          }
        }
      }
    }
  }

  /** Progress is refreshed after every tenth user and after the last. */
  predicate RefreshAt(i: nat, total: nat)
  {
    (i + 1) % 10 == 0 || i + 1 == total
  }

  /** `int(((i + 1) / total) * 100)`, computed exactly. */
  function Percent(i: nat, total: nat): int
    requires total > 0
  {
    (i + 1) * 100 / total
  }

  /** One progress message: the percentage, the sent count and the blocked
      count at that point. */
  datatype Progress = Progress(percent: int, sent: nat, blocked: nat)

  /** The progress messages after the first `n` users. */
  function ProgressLog(rs: seq<SendResult>, total: nat, n: nat): seq<Progress>
    requires n <= |rs| && total > 0
  {
    if n == 0 then []
    else
      ProgressLog(rs, total, n - 1)
        + (if RefreshAt(n - 1, total)
           then [Progress(Percent(n - 1, total), SentCount(rs[..n]), BlockedCount(rs[..n]))]
           else [])
  }

  /** A run over `total` users refreshes `total / 10` times, plus once more
      for a last partial group of ten. */
  lemma {:induction false} RefreshCount(rs: seq<SendResult>, total: nat, n: nat)
    requires total > 0 && n <= |rs| && n <= total
    ensures |ProgressLog(rs, total, n)| == n / 10 + (if n == total && n % 10 != 0 then 1 else 0)
  {
    if n > 0 {
      RefreshCount(rs, total, n - 1);
    }
  }

  /** The last refresh reports 100% and the final counters. */
  lemma LastRefreshComplete(rs: seq<SendResult>)
    requires |rs| > 0
    ensures var log := ProgressLog(rs, |rs|, |rs|);
      |log| > 0 && log[|log| - 1] == Progress(100, SentCount(rs), BlockedCount(rs))
  {
    var n := |rs|;
    assert rs[..n] == rs;
    MulDivCancel(n);
    assert Percent(n - 1, n) == 100;
  }

  lemma MulDivCancel(n: nat)
    requires n > 0
    ensures n * 100 / n == 100
  {
    var a := n * 100;
    var q := a / n;
    assert a == q * n + a % n;
    assert (100 - q) * n == a % n;
    assert 0 <= a % n < n;
  }

  /** Every reported percentage lies in [0, 100]. */
  lemma PercentBounds(i: nat, total: nat)
    requires i < total
    ensures 0 <= Percent(i, total) <= 100
  {
    var a := (i + 1) * 100;
    var q := a / total;
    assert a == q * total + a % total;
    assert q * total <= a <= 100 * total;
    assert (q - 100) * total <= 0;
  }

  datatype BroadcastReply = NotAdmin | NoUsers | Completed(total: nat, sent: nat, blocked: nat, failed: nat)

  /** `handle_broadcast_message`. The user list and the outcome of each
      send are parameters; `marked` lists the `mark_user_inactive` calls
      and `log` the progress messages, in order. */
  method HandleBroadcastMessage(ctx: Context, caller: int, userIds: seq<int>, results: seq<SendResult>)
    returns (reply: BroadcastReply, marked: seq<int>, log: seq<Progress>)
    requires |results| == |userIds|
    modifies ctx
    ensures !IsAdmin(caller) ==> reply == NotAdmin && marked == [] && log == [] && unchanged(ctx)
    ensures IsAdmin(caller) ==> ctx.lastWord == None && ctx.failedWords == [] && !ctx.awaitingBroadcast
    ensures IsAdmin(caller) && |userIds| == 0 ==> reply == NoUsers && marked == [] && log == []
    ensures IsAdmin(caller) && |userIds| > 0 ==>
      && reply == Completed(|userIds|, SentCount(results), BlockedCount(results), FailedCount(results))
      && marked == ForbiddenIds(userIds, results)
      && log == ProgressLog(results, |userIds|, |userIds|)
  {
    marked, log := [], [];
    if !IsAdmin(caller) {
      return NotAdmin, marked, log;
    }

    ctx.Clear();

    var total := |userIds|;
    if total == 0 {
      return NoUsers, marked, log;
    }

    var sent, failed, blocked := 0, 0, 0;
    var i := 0;
    while i < total
      invariant 0 <= i <= total
      invariant sent == SentCount(results[..i])
      invariant failed == FailedCount(results[..i])
      invariant blocked == BlockedCount(results[..i])
      invariant marked == ForbiddenIds(userIds[..i], results[..i])
      invariant log == ProgressLog(results, total, i)
    {
      assert results[..i + 1][..i] == results[..i];
      assert userIds[..i + 1][..i] == userIds[..i];
      match results[i] {
        case Delivered =>
          sent := sent + 1;
        case Forbidden =>
          marked := marked + [userIds[i]];
          blocked := blocked + 1;
          failed := failed + 1;
        case BadRequest =>
          failed := failed + 1;
        case OtherError =>
          failed := failed + 1;
      }

      if (i + 1) % 10 == 0 || i + 1 == total {
        var percent := (i + 1) * 100 / total;
        log := log + [Progress(percent, sent, blocked)];
      }
      i := i + 1;
    }
    assert results[..total] == results && userIds[..total] == userIds;
    return Completed(total, sent, blocked, failed), marked, log;
  }

  // ---------------------------------------------------------------------
  // Panel, statistics and mailing callbacks
  // ---------------------------------------------------------------------

  datatype AdminAction = OpenPanel | ShowStats | StartMailing | CancelMailing | Back
  datatype AdminReply = Ignored | PanelShown | StatsShown | MailingPrompt

  /** The `/admin`, statistics, mailing, cancel and back handlers: each
      does nothing for a caller outside `ADMIN_IDS`. */
  method HandleAdminAction(ctx: Context, caller: int, action: AdminAction) returns (reply: AdminReply)
    modifies ctx
    ensures !IsAdmin(caller) ==> reply == Ignored && unchanged(ctx)
    ensures IsAdmin(caller) ==> reply != Ignored
    ensures IsAdmin(caller) && action == StartMailing ==>
      reply == MailingPrompt && ctx.awaitingBroadcast
      && ctx.lastWord == old(ctx.lastWord) && ctx.failedWords == old(ctx.failedWords)
    ensures IsAdmin(caller) && action == CancelMailing ==>
      reply == PanelShown && ctx.lastWord == None && ctx.failedWords == [] && !ctx.awaitingBroadcast
    ensures IsAdmin(caller) && action in {OpenPanel, ShowStats, Back} ==> unchanged(ctx)
    ensures IsAdmin(caller) && action == ShowStats ==> reply == StatsShown
  {
    if !IsAdmin(caller) {
      return Ignored;
    }
    match action {
      case OpenPanel => reply := PanelShown;
      case ShowStats => reply := StatsShown;
      case StartMailing =>
        ctx.awaitingBroadcast := true;
        reply := MailingPrompt;
      case CancelMailing =>
        ctx.Clear();
        reply := PanelShown;
      case Back => reply := PanelShown;
    }
  }
}
