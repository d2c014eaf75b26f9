/**
 * The notification request of the broadcaster: a bag of three independently
 * optional, capability-keyed option groups, and the channel kinds that read them.
 */
module NotificationTypes {
  import opened Wrappers

  datatype EmailOptions = EmailOptions(recipientEmails: seq<string>)
  datatype WebhookOptions = WebhookOptions(urls: seq<string>)
  datatype SocketsOptions = SocketsOptions(recipientIds: seq<int>)

  /** Any subset of the three keys may be present, including none. */
  datatype NotificationOptions = NotificationOptions(
    emailOptions: Option<EmailOptions>,
    webhookOptions: Option<WebhookOptions>,
    socketsOptions: Option<SocketsOptions>)

  /** The options with no key present. */
  const NoOptions := NotificationOptions(None, None, None)

  /**
   * The implementations of the one-method channel interface. A channel's only
   * operation takes a title, a message and optional options and returns nothing.
   */
  datatype Channel = SocketsChannel | EmailChannel | WebhookChannel
}
