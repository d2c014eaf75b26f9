/**
 * The mail transport seen from the core: every call to `sendEmail` becomes one
 * entry of a log of sent messages. Transport errors are caught and logged by the
 * transport itself, so a send never fails and never throws past it.
 */
module EmailService {

  datatype Email = Email(to: string, subject: string, body: string)

  class EmailService {
    /** Every message handed to the transport, oldest first. */
    var sent: seq<Email>

    constructor ()
      ensures sent == []
    {
      sent := [];
    }

    method SendEmail(to: string, subject: string, body: string)
      modifies this
      ensures sent == old(sent) + [Email(to, subject, body)]
    {
      sent := sent + [Email(to, subject, body)];
    }
  }
}
