/**
 * The daily digest mail: one email per user with a line per note type, sent
 * in order through the mail transport.
 */
module DailyNotificationService {
  import opened Wrappers
  import opened Text
  import opened AppTypes
  import opened EmailService

  const DigestSubject := "Daily Notes Stats"

  /** `"<count> <type> notes"`. */
  function StatLine(stat: Stat): string {
    NatToString(stat.count) + " " + stat.noteType + " notes"
  }

  /**
   * The lines of the message: the greeting, the fixed second line, one line
   * per stat in order, and the call to action only when a non-empty URL is
   * given (an empty string is falsy).
   */
  function MessageParts(userStat: UserStat, callToActionUrl: Option<string>): seq<string> {
    ["Hi " + userStat.username + ",", "You got some new notes!"]
    + seq(|userStat.stats|, i requires 0 <= i < |userStat.stats| => StatLine(userStat.stats[i]))
    + (if callToActionUrl.Some? && callToActionUrl.value != "" then ["See all your notes: " + callToActionUrl.value] else [])
  }

  /** `formatStatsMessage`: the parts joined by line feeds. */
  function FormatStatsMessage(userStat: UserStat, callToActionUrl: Option<string>): string {
    Join(MessageParts(userStat, callToActionUrl), "\n")
  }

  /** Neither the username nor a type name contains a line feed. */
  predicate SingleLineNames(userStat: UserStat) {
    && '\n' !in userStat.username
    && forall i | 0 <= i < |userStat.stats| :: '\n' !in userStat.stats[i].noteType
  }

  /**
   * Read line by line, the message is exactly its parts: the greeting, the
   * fixed line, one line per stat in order, then the call to action line when
   * a non-empty URL is given. Without a URL that is 2 + |stats| lines, with no
   * trailing line feed.
   */
  lemma FormatStatsLines(userStat: UserStat, callToActionUrl: Option<string>)
    requires SingleLineNames(userStat)
    requires callToActionUrl.Some? ==> '\n' !in callToActionUrl.value
    ensures var lines := Lines(FormatStatsMessage(userStat, callToActionUrl));
            var withUrl := callToActionUrl.Some? && callToActionUrl.value != "";
            && |lines| == 2 + |userStat.stats| + (if withUrl then 1 else 0)
            && lines[0] == "Hi " + userStat.username + ","
            && lines[1] == "You got some new notes!"
            && (forall i | 0 <= i < |userStat.stats| :: lines[2 + i] == StatLine(userStat.stats[i]))
            && (withUrl ==> lines[|lines| - 1] == "See all your notes: " + callToActionUrl.value)
  {
    var parts := MessageParts(userStat, callToActionUrl);
    forall k | 0 <= k < |parts| ensures '\n' !in parts[k] {
      if 2 <= k < 2 + |userStat.stats| {
        var s := userStat.stats[k - 2];
        var digits := NatToString(s.count);
        assert '\n' !in digits by {
          forall j | 0 <= j < |digits| ensures digits[j] != '\n' {
          }
        }
        assert parts[k] == digits + " " + s.noteType + " notes";
      }
    }
    SplitJoin(parts, '\n');
  }

  /** The digest emails: one per user stat, in order, to its address, without a call to action. */
  function DigestEmails(userStats: seq<UserStat>): seq<Email> {
    seq(|userStats|, i requires 0 <= i < |userStats| =>
      Email(userStats[i].email, DigestSubject, FormatStatsMessage(userStats[i], None)))
  }

  /** A digest email never carries the call-to-action line: its body has exactly 2 + |stats| lines. */
  lemma DigestHasNoCallToAction(userStats: seq<UserStat>, i: int)
    requires 0 <= i < |userStats| && SingleLineNames(userStats[i])
    ensures |DigestEmails(userStats)| == |userStats|
    ensures DigestEmails(userStats)[i].to == userStats[i].email && DigestEmails(userStats)[i].subject == DigestSubject
    ensures |Lines(DigestEmails(userStats)[i].body)| == 2 + |userStats[i].stats|
  {
    FormatStatsLines(userStats[i], None);
  }

  class DailyNotificationService {
    constructor ()
    {
    }

    /** `sendDailyNoteStats`: one awaited email per user stat, in order. */
    method SendDailyNoteStats(mailer: EmailService, userStats: seq<UserStat>)
      modifies mailer
      ensures mailer.sent == old(mailer.sent) + DigestEmails(userStats)
    {
      for k := 0 to |userStats|
        invariant mailer.sent == old(mailer.sent) + DigestEmails(userStats)[..k]
      {
        var message := FormatStatsMessage(userStats[k], None);
        mailer.SendEmail(userStats[k].email, DigestSubject, message);
        assert DigestEmails(userStats)[..k + 1] == DigestEmails(userStats)[..k] + [DigestEmails(userStats)[k]];
      }
    }
  }

  /** The static `instance` slot of the singleton. */
  class DailyNotificationServiceInstance {
    var instance: DailyNotificationService?

    constructor ()
      ensures instance == null
    {
      instance := null;
    }

    /** `getInstance`: the first call creates the service; every call returns that one object. */
    method GetInstance() returns (service: DailyNotificationService)
      modifies this
      ensures old(instance) != null ==> service == old(instance)
      ensures old(instance) == null ==> fresh(service)
      ensures instance == service
    {
      if instance == null {
        instance := new DailyNotificationService();
      }
      service := instance;
    }
  }
}
