/**
 * util.py: display helpers. `humanize_datetime` names the age of a save from
 * the day and month components of `relativedelta(now, dt)`; `humanize_url`
 * shows a URL as host name plus path, cut to 80 characters.
 */
module Util {
  import opened Text

  /** The label for a `relativedelta` with these `days` and `months` components. */
  function HumanizeDatetime(days: int, months: int): (name: string)
    ensures name != []
  {
    if days == 0 then "Today"
    else if days == 1 then "Yesterday"
    else if days < 7 then "This Week"
    else if days < 14 then "Last Week"
    else if days < 21 then "Two Weeks Ago"
    else if days < 28 then "Three Weeks Ago"
    else if months == 0 then "This Month"
    else if months == 1 then "Last Month"
    else IntToString(months) + " Months Ago"
  }

  /** `raw if len(raw) < 80 else raw[:77] + '...'`. */
  function Truncate80(raw: string): (r: string)
    ensures |r| <= 80
    ensures |raw| < 80 ==> r == raw
    ensures |raw| >= 80 ==> |r| == 80 && r[..77] == raw[..77] && r[77..] == "..."
  {
    if |raw| < 80 then raw else raw[..77] + "..."
  }

  /** `humanize_url`, given the `hostname` and `path` that `urlparse` extracts. */
  function HumanizeUrl(hostname: string, path: string): (r: string)
    ensures |r| <= 80
    ensures |hostname| + |path| < 80 ==> r == hostname + path
    ensures |hostname| + |path| >= 80 ==> r == (hostname + path)[..77] + "..."
  {
    Truncate80(hostname + path)
  }

  // ---------------------------------------------------------------------
  // Properties

  /** A "Months Ago" label starts with a digit or a minus sign, unlike every fixed label. */
  lemma MonthsAgoStart(months: int)
    ensures var name := IntToString(months) + " Months Ago";
      |name| > 11 && (name[0] == '-' || '0' <= name[0] <= '9')
  {
  }

  /**
   * Each label names exactly one range of the delta: the day component is
   * examined first, and the month component only from 28 days on.
   */
  lemma HumanizeDatetimeLabels(days: int, months: int)
    ensures HumanizeDatetime(days, months) == "Today" <==> days == 0
    ensures HumanizeDatetime(days, months) == "Yesterday" <==> days == 1
    ensures HumanizeDatetime(days, months) == "This Week" <==> days < 7 && days != 0 && days != 1
    ensures HumanizeDatetime(days, months) == "Last Week" <==> 7 <= days < 14
    ensures HumanizeDatetime(days, months) == "Two Weeks Ago" <==> 14 <= days < 21
    ensures HumanizeDatetime(days, months) == "Three Weeks Ago" <==> 21 <= days < 28
    ensures HumanizeDatetime(days, months) == "This Month" <==> days >= 28 && months == 0
    ensures HumanizeDatetime(days, months) == "Last Month" <==> days >= 28 && months == 1
    ensures HumanizeDatetime(days, months) == IntToString(months) + " Months Ago"
        <==> days >= 28 && months != 0 && months != 1
  {
    MonthsAgoStart(months);
    var name := HumanizeDatetime(days, months);
    var monthsAgo := IntToString(months) + " Months Ago";
    assert monthsAgo[0] != 'T' && monthsAgo[0] != 'Y' && monthsAgo[0] != 'L';
  }

  /** Truncating to 80 characters twice is the same as truncating once. */
  lemma Truncate80Idempotent(raw: string)
    ensures Truncate80(Truncate80(raw)) == Truncate80(raw)
  {
    var once := Truncate80(raw);
    if |raw| >= 80 {
      assert once[..77] + "..." == once;
    }
  }
}
