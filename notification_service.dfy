/**
 * The process-wide broadcaster: an append-only, ordered list of channels and
 * a broadcast that awaits every channel in registration order with the same
 * title, message and options. It has no try/catch of its own: that no error
 * escapes rests on each channel's guard and on the transport's own catch.
 */
module NotificationService {
  import opened Wrappers
  import opened NotificationTypes
  import opened EmailService
  import opened Channels

  /** The emails one broadcast sends: each channel's sends, in registration order. */
  function BroadcastSends(channels: seq<Channel>, title: string, message: string, options: Option<NotificationOptions>): seq<Email>
  {
    if channels == [] then []
    else ChannelSends(channels[0], title, message, options) + BroadcastSends(channels[1..], title, message, options)
  }

  /** Broadcasting over two registration batches is broadcasting over the first, then over the second. */
  lemma {:induction false} BroadcastSendsAppend(a: seq<Channel>, b: seq<Channel>, title: string, message: string,
                                                options: Option<NotificationOptions>)
    ensures BroadcastSends(a + b, title, message, options) ==
            BroadcastSends(a, title, message, options) + BroadcastSends(b, title, message, options)
  {
    if a != [] {
      assert (a + b)[1..] == a[1..] + b;
      BroadcastSendsAppend(a[1..], b, title, message, options);
    } else {
      assert a + b == b;
    }
  }

  /** The channels registered at startup: sockets, then email, then webhook. */
  const GeneralNotificationChannels: seq<Channel> := [SocketsChannel, EmailChannel, WebhookChannel]

  /** Exactly three channels, one of each kind, in the order sockets, email, webhook. */
  lemma GeneralChannelsOnceEach()
    ensures |GeneralNotificationChannels| == 3
    ensures forall c: Channel :: multiset(GeneralNotificationChannels)[c] == 1
    ensures GeneralNotificationChannels[0].SocketsChannel? && GeneralNotificationChannels[1].EmailChannel?
            && GeneralNotificationChannels[2].WebhookChannel?
  {
    assert GeneralNotificationChannels == [SocketsChannel] + [EmailChannel] + [WebhookChannel];
    assert multiset(GeneralNotificationChannels) == multiset{SocketsChannel} + multiset{EmailChannel} + multiset{WebhookChannel};
    forall c: Channel ensures multiset(GeneralNotificationChannels)[c] == 1 {
      match c
      case SocketsChannel =>
      case EmailChannel =>
      case WebhookChannel =>
    }
  }

  /**
   * Over the startup channels, a broadcast sends exactly the email channel's
   * messages: one per listed address, whatever the socket and webhook keys hold.
   */
  lemma {:induction false} GeneralBroadcastIsEmailOnly(title: string, message: string, options: Option<NotificationOptions>)
    ensures BroadcastSends(GeneralNotificationChannels, title, message, options) == EmailSends(title, message, options)
  {
    var g := GeneralNotificationChannels;
    assert g[1..] == [EmailChannel, WebhookChannel] && g[1..][1..] == [WebhookChannel] && g[1..][1..][1..] == [];
    assert BroadcastSends([WebhookChannel], title, message, options) == [];
  }

  class NotificationService {
    /** The registered channels, in registration order. There is no removal. */
    var channels: seq<Channel>

    constructor ()
      ensures channels == []
    {
      channels := [];
    }

    /** `registerChannel`: appends exactly `channel` and keeps the earlier ones in order. */
    method RegisterChannel(channel: Channel)
      modifies this
      ensures channels == old(channels) + [channel]
    {
      channels := channels + [channel];
    }

    /** `registerChannels`: pushes each given channel in turn, with no deduplication. */
    method RegisterChannels(cs: seq<Channel>)
      modifies this
      ensures channels == old(channels) + cs
    {
      for k := 0 to |cs|
        invariant channels == old(channels) + cs[..k]
      {
        channels := channels + [cs[k]];
        assert cs[..k + 1] == cs[..k] + [cs[k]];
      }
    }

    /** `broadcastNotification`: awaits every channel in order with the same arguments; the list is unchanged. */
    method BroadcastNotification(mailer: EmailService, title: string, message: string, options: Option<NotificationOptions>)
      modifies mailer
      ensures mailer.sent == old(mailer.sent) + BroadcastSends(channels, title, message, options)
    {
      for k := 0 to |channels|
        invariant mailer.sent == old(mailer.sent) + BroadcastSends(channels[..k], title, message, options)
      {
        SendNotification(channels[k], mailer, title, message, options);
        assert channels[..k + 1] == channels[..k] + [channels[k]];
        BroadcastSendsAppend(channels[..k], [channels[k]], title, message, options);
      }
      assert channels[..|channels|] == channels;
    }
  }

  /** The static `instance` slot of the singleton. */
  class NotificationServiceInstance {
    var instance: NotificationService?

    constructor ()
      ensures instance == null
    {
      instance := null;
    }

    /** `getInstance`: the first call creates the service with no channels; every call returns that one object. */
    method GetInstance() returns (service: NotificationService)
      modifies this
      ensures old(instance) != null ==> service == old(instance)
      ensures old(instance) == null ==> fresh(service) && service.channels == []
      ensures instance == service
    {
      if instance == null {
        instance := new NotificationService();
      }
      service := instance;
    }
  }

  /**
   * Startup: the module creates the singleton on load and the server registers
   * the general channels once, so the list then equals that array.
   */
  method SetupNotifications() returns (slot: NotificationServiceInstance, service: NotificationService)
    ensures fresh(slot) && fresh(service)
    ensures slot.instance == service
    ensures service.channels == GeneralNotificationChannels
  {
    slot := new NotificationServiceInstance();
    service := slot.GetInstance();
    service.RegisterChannels(GeneralNotificationChannels);
  }
}
