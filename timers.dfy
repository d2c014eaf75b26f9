/**
 * The runtime's timer queue: `setTimeout(callback)` registers a callback that
 * runs after the current synchronous work, and nobody awaits it. The only
 * callback the core registers is a broadcast, so a pending timer is the
 * broadcast's arguments.
 */
module Timers {
  import opened Wrappers
  import opened NotificationTypes
  import opened EmailService
  import opened NotificationService

  datatype PendingBroadcast = PendingBroadcast(title: string, message: string, options: Option<NotificationOptions>)

  class TimerQueue {
    /** Registered callbacks that have not run yet, oldest first. */
    var pending: seq<PendingBroadcast>

    constructor ()
      ensures pending == []
    {
      pending := [];
    }

    /** `setTimeout`: registers the callback; it does not run now. */
    method SetTimeout(task: PendingBroadcast)
      modifies this
      ensures pending == old(pending) + [task]
    {
      pending := pending + [task];
    }
  }

  /**
   * The event loop fires the oldest timer: the broadcast runs over the
   * service's channels. With no timer pending nothing happens.
   */
  method RunNextTimer(timers: TimerQueue, service: NotificationService, mailer: EmailService) returns (ran: bool)
    modifies timers, mailer
    ensures ran <==> old(timers.pending) != []
    ensures !ran ==> timers.pending == old(timers.pending) && mailer.sent == old(mailer.sent)
    ensures ran ==>
              && timers.pending == old(timers.pending)[1..]
              && var task := old(timers.pending)[0];
                 mailer.sent == old(mailer.sent) + BroadcastSends(service.channels, task.title, task.message, task.options)
  {
    if timers.pending == [] {
      return false;
    }
    var task := timers.pending[0];
    timers.pending := timers.pending[1..];
    service.BroadcastNotification(mailer, task.title, task.message, task.options);
    ran := true;
  }
}
