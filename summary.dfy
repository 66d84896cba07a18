/**
 * The summary text of `process_data`: one section per collection with the recent and
 * stale counts and the oldest record's date and time.
 */
module Summary {
  import opened Decimal
  import opened DateTimes

  /** The label before the recent count. */
  function RecentLabel(plural: string): string {
    plural + ":\nTotal " + plural + " created within the last 7 days: "
  }

  /** The label before the stale count. */
  function StaleLabel(plural: string): string {
    "\nTotal " + plural + " created before the last 7 days: "
  }

  /** The line with the oldest record's date and time. */
  function OldestLine(singular: string, oldest: DateTime): string {
    "\nOldest " + singular + " Creation Date: " + DateText(oldest) + " Time: " + TimeText(oldest) + " TimeZone: UTC\n\n"
  }

  /** One summary section: the recent and stale counts and the oldest record's date and time. */
  function SectionText(plural: string, singular: string, recent: nat, stale: nat, oldest: DateTime): string {
    Section(plural, singular, Text(recent), Text(stale), oldest)
  }

  /** A section around the texts `r` and `t` of the two counts. */
  function Section(plural: string, singular: string, r: string, t: string, oldest: DateTime): string {
    RecentLabel(plural) + r + (StaleLabel(plural) + t + OldestLine(singular, oldest))
  }

  /** Both counts can be found in a section: each sits right after its label as the decimal text
      of the count (which `ValueOfText` reads back), ended by a line break; the rest of the section
      is the line with the oldest record's date and time. */
  lemma SectionCounts(plural: string, singular: string, recent: nat, stale: nat, oldest: DateTime)
    ensures var s := SectionText(plural, singular, recent, stale, oldest);
      var a := |RecentLabel(plural)|;
      var ra := a + |Text(recent)|;
      var b := ra + |StaleLabel(plural)|;
      var rb := b + |Text(stale)|;
      |s| > rb && s[..a] == RecentLabel(plural) && s[ra..b] == StaleLabel(plural) &&
      s[a..ra] == Text(recent) && s[ra] == '\n' &&
      s[b..rb] == Text(stale) && s[rb] == '\n' &&
      s[rb..] == OldestLine(singular, oldest)
  {
    SectionLayout(plural, singular, Text(recent), Text(stale), oldest, SectionText(plural, singular, recent, stale, oldest));
  }

  /** Where the labels, the two count texts and the oldest line sit in a section. */
  lemma SectionLayout(plural: string, singular: string, r: string, t: string, oldest: DateTime, s: string)
    requires s == Section(plural, singular, r, t, oldest)
    ensures var a := |RecentLabel(plural)|;
      var ra := a + |r|;
      var b := ra + |StaleLabel(plural)|;
      var rb := b + |t|;
      |s| > rb && s[..a] == RecentLabel(plural) && s[ra..b] == StaleLabel(plural) &&
      s[a..ra] == r && s[ra] == '\n' && s[b..rb] == t && s[rb] == '\n' &&
      s[rb..] == OldestLine(singular, oldest)
  {
    var p1, p2, rest := RecentLabel(plural), StaleLabel(plural), OldestLine(singular, oldest);
    assert p2[0] == '\n' && rest[0] == '\n';
    TwoFields(p1, r, p2, t, rest);
  }
}
