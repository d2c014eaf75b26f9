/**
 * The three notification channels. Each one first checks for its own option
 * key and returns when it is absent; absent options count as a missing key.
 * Only the email channel delivers anything: the socket and webhook channels
 * log and return, their delivery loops being commented out in the source.
 */
module Channels {
  import opened Wrappers
  import opened NotificationTypes
  import opened EmailService

  /** The email addresses the options ask for, when the `emailOptions` key is present. */
  function EmailRecipients(options: Option<NotificationOptions>): Option<seq<string>> {
    if options.Some? && options.value.emailOptions.Some? then
      Some(options.value.emailOptions.value.recipientEmails)
    else None
  }

  /** The email channel: one email per listed address, in list order, subject = title, body = message. */
  function EmailSends(title: string, message: string, options: Option<NotificationOptions>): (r: seq<Email>)
  {
    match EmailRecipients(options)
    case None => []
    case Some(addresses) => seq(|addresses|, i requires 0 <= i < |addresses| => Email(addresses[i], title, message))
  }

  /** The observable effect of one channel's `sendNotification`: the emails it sends. */
  function ChannelSends(channel: Channel, title: string, message: string, options: Option<NotificationOptions>): seq<Email>
  {
    match channel
    case EmailChannel => EmailSends(title, message, options)
    // guard on `socketsOptions`, then only a log line
    case SocketsChannel => []
    // guard on `webhookOptions`, then only a log line
    case WebhookChannel => []
  }

  /** `EmailNotificationChannel.sendNotification`: a guard, then one awaited send per address. */
  method SendEmailNotification(mailer: EmailService, title: string, message: string, options: Option<NotificationOptions>)
    modifies mailer
    ensures mailer.sent == old(mailer.sent) + EmailSends(title, message, options)
  {
    if options.None? || options.value.emailOptions.None? {
      return;
    }
    var addresses := options.value.emailOptions.value.recipientEmails;
    for k := 0 to |addresses|
      invariant mailer.sent == old(mailer.sent) + EmailSends(title, message, options)[..k]
    {
      mailer.SendEmail(addresses[k], title, message);
    }
  }

  /** `sendNotification` dispatched on the channel kind. */
  method SendNotification(channel: Channel, mailer: EmailService, title: string, message: string, options: Option<NotificationOptions>)
    modifies mailer
    ensures mailer.sent == old(mailer.sent) + ChannelSends(channel, title, message, options)
  {
    match channel
    case EmailChannel =>
      SendEmailNotification(mailer, title, message, options);
    case SocketsChannel =>
    case WebhookChannel =>
  }

  /** Without `emailOptions` the email channel sends nothing, whatever other keys are present. */
  lemma EmailNeedsEmailOptions(title: string, message: string, options: Option<NotificationOptions>)
    requires options.None? || options.value.emailOptions.None?
    ensures EmailSends(title, message, options) == []
  {
  }

  /** The email channel sends exactly once per listed address, in list order, duplicates included. */
  lemma EmailOnePerAddress(title: string, message: string, options: NotificationOptions, addresses: seq<string>)
    requires options.emailOptions == Some(EmailOptions(addresses))
    ensures |EmailSends(title, message, Some(options))| == |addresses|
    ensures forall i | 0 <= i < |addresses| ::
      EmailSends(title, message, Some(options))[i] == Email(addresses[i], title, message)
  {
  }

  /** Each channel reads only its own key: changing the other keys changes nothing it sends. */
  lemma EmailIgnoresOtherKeys(title: string, message: string, options: NotificationOptions,
                              webhook: Option<WebhookOptions>, sockets: Option<SocketsOptions>)
    ensures EmailSends(title, message, Some(options)) ==
            EmailSends(title, message, Some(options.(webhookOptions := webhook, socketsOptions := sockets)))
  {
  }

  /** Absent options behave exactly like options with no key, for every channel. */
  lemma AbsentOptionsAsNoKeys(channel: Channel, title: string, message: string)
    ensures ChannelSends(channel, title, message, None) == ChannelSends(channel, title, message, Some(NoOptions)) == []
  {
  }

  /** The socket and webhook channels never send an email, whatever options they are given. */
  lemma SocketsAndWebhookSendNothing(title: string, message: string, options: Option<NotificationOptions>)
    ensures ChannelSends(SocketsChannel, title, message, options) == []
    ensures ChannelSends(WebhookChannel, title, message, options) == []
  {
  }
}
