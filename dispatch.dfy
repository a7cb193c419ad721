/** What the posting dispatcher (`process_post_cache_selenium`) does with a
    record it takes from the job queue: the tests that skip it, the lookup
    of its browser profile, and the job it hands to a posting worker; and the
    pure helpers that shape that job (`extract_media_url`, the file suffix of
    `download_media`, `filter_bmp_characters` and the title of
    `add_title_to_post`). */
module Dispatch {
  import opened Common
  import opened Timestamps
  import opened Records
  import opened Accounts
  import opened Scheduler

  // ---------------------------------------------------------------------
  // Media

  /** `extract_media_url(media_data)`: a string is the URL itself; for a
      non-empty list the first element is looked at; an object yields its
      `url` member. Anything else, and a falsy value, yields None (JNull). */
  function ExtractMediaUrl(media: Json): (url: Json)
  {
    if !Truthy(media) then JNull
    else if media.JStr? then media
    else
      var m := if media.JList? && |media.items| > 0 then media.items[0] else media;
      if m.JObject? && "url" in m.members then m.members["url"] else JNull
  }

  /** The URL is found only where the attachment formats put it: the value
      itself when it is a non-empty string, else the `url` member of the
      value or of the first element of the list. Conversely each of these
      forms yields exactly that: a non-empty string itself, an object its
      `url` (None without one), a non-empty list what its first element
      would yield as an object, and any other value None. */
  lemma ExtractMediaUrlFrom(media: Json)
    ensures ExtractMediaUrl(media) != JNull ==>
            || (media.JStr? && media.s != "" && ExtractMediaUrl(media) == media)
            || (media.JObject? && "url" in media.members && ExtractMediaUrl(media) == media.members["url"])
            || (media.JList? && media.items != [] && media.items[0].JObject?
                && "url" in media.items[0].members && ExtractMediaUrl(media) == media.items[0].members["url"])
    ensures !Truthy(media) ==> ExtractMediaUrl(media) == JNull
    ensures media.JStr? && media.s != "" ==> ExtractMediaUrl(media) == media
    ensures media.JObject? ==>
            ExtractMediaUrl(media) == if "url" in media.members then media.members["url"] else JNull
    ensures media.JList? && media.items != [] ==>
            ExtractMediaUrl(media) == if media.items[0].JObject? && "url" in media.items[0].members
                                      then media.items[0].members["url"] else JNull
    ensures media.JNull? || media.JBool? || media.JInt? ==> ExtractMediaUrl(media) == JNull
  {
  }

  /** A list of attachment objects yields the first one's `url`; a list of
      plain strings yields nothing, not the first string. */
  lemma ExtractFromList(first: Json, rest: seq<Json>)
    ensures first.JObject? && "url" in first.members ==>
            ExtractMediaUrl(JList([first] + rest)) == first.members["url"]
    ensures first.JStr? ==> ExtractMediaUrl(JList([first] + rest)) == JNull
  {
    assert ([first] + rest)[0] == first;
  }

  /** The file suffix `download_media` chooses from a Content-Type: `.jpg`
      for an image, else `.mp4` for a video, else none (the download is
      then refused). */
  function MediaSuffix(contentType: string): Option<string>
  {
    if IsSubstring("image/", contentType) then Some(".jpg")
    else if IsSubstring("video/", contentType) then Some(".mp4")
    else None
  }

  lemma MediaSuffixIff(contentType: string)
    ensures MediaSuffix(contentType) == Some(".jpg") <==> exists i :: OccursAt("image/", contentType, i)
    ensures MediaSuffix(contentType) == Some(".mp4") <==>
            (forall i :: !OccursAt("image/", contentType, i)) && exists i :: OccursAt("video/", contentType, i)
    ensures MediaSuffix(contentType) == None <==>
            forall i :: !OccursAt("image/", contentType, i) && !OccursAt("video/", contentType, i)
  {
    IsSubstringIff("image/", contentType);
    IsSubstringIff("video/", contentType);
  }

  // ---------------------------------------------------------------------
  // Title

  /** A code point in the Basic Multilingual Plane. */
  predicate InBmp(c: char) {
    c as int <= 0xFFFF
  }

  /** `filter_bmp_characters(text)`: the text without its code points above
      U+FFFF, which the browser's text input refuses. */
  function FilterBmp(s: string): (r: string)
    ensures |r| <= |s|
    ensures forall i :: 0 <= i < |r| ==> InBmp(r[i])
  {
    if s == [] then []
    else (if InBmp(s[0]) then [s[0]] else []) + FilterBmp(s[1..])
  }

  lemma {:induction false} FilterBmpAppend(a: string, b: string)
    ensures FilterBmp(a + b) == FilterBmp(a) + FilterBmp(b)
  {
    if a != [] {
      assert (a + b)[1..] == a[1..] + b;
      FilterBmpAppend(a[1..], b);
    } else {
      assert a + b == b;
    }
  }

  /** Filtering keeps precisely the BMP characters, in their order. */
  lemma {:induction false} FilterBmpKeeps(s: string, c: char)
    ensures c in FilterBmp(s) <==> c in s && InBmp(c)
    ensures IsSubsequence(FilterBmp(s), s)
  {
    if s != [] {
      FilterBmpKeeps(s[1..], c);
      assert s == [s[0]] + s[1..];
      if InBmp(s[0]) {
        assert FilterBmp(s) == [s[0]] + FilterBmp(s[1..]);
        assert FilterBmp(s)[1..] == FilterBmp(s[1..]);
      } else {
        assert FilterBmp(s) == FilterBmp(s[1..]);
        SubsequenceDrop(FilterBmp(s[1..]), s);
      }
    }
  }

  lemma SubsequenceDrop<T>(a: seq<T>, b: seq<T>)
    requires b != [] && IsSubsequence(a, b[1..])
    ensures IsSubsequence(a, b)
  {
  }

  /** Text made only of BMP characters passes unchanged, so filtering is
      idempotent. */
  lemma {:induction false} FilterBmpOfBmp(s: string)
    requires forall i :: 0 <= i < |s| ==> InBmp(s[i])
    ensures FilterBmp(s) == s
  {
    if s != [] {
      FilterBmpOfBmp(s[1..]);
      assert s == [s[0]] + s[1..];
    }
  }

  lemma FilterBmpIdempotent(s: string)
    ensures FilterBmp(FilterBmp(s)) == FilterBmp(s)
  {
    FilterBmpOfBmp(FilterBmp(s));
  }

  /** The title `add_title_to_post` types: `f"{title} {char_value}
      {snap_value}"`, stripped, then filtered. */
  function PostedTitle(title: string, charValue: string, snapValue: string): (posted: string) {
    FilterBmp(Strip(title + " " + charValue + " " + snapValue))
  }

  /** The worker never passes a char value, so the title and the snap value
      end up two spaces apart. */
  lemma TitleWithoutChar(title: string, snapValue: string)
    ensures PostedTitle(title, "", snapValue) == FilterBmp(Strip(title + "  " + snapValue))
  {
    assert title + " " + "" + " " + snapValue == title + "  " + snapValue;
  }

  /** A trimmed BMP title with nothing attached is typed as it is. */
  lemma PlainTitle(title: string)
    requires Trimmed(title) && forall i :: 0 <= i < |title| ==> InBmp(title[i])
    ensures PostedTitle(title, "", "") == title
  {
    assert title + " " + "" + " " + "" == [] + title + "  ";
    StripOfPadded([], title, "  ");
    FilterBmpOfBmp(title);
  }

  // ---------------------------------------------------------------------
  // Skip rules and the job

  datatype SkipReason =
    | NoDateTime          // Date or Time absent or empty
    | UnparsableDateTime  // parse_datetime gave None
    | EmptyAccountList    // `account_name[0]` of an empty list raises
    | NoAccount           // the Account value is falsy
    | NoProfile           // no profile serial number for the account

  /** How the media and the snap/char overlay reach the post. */
  datatype Media =
    | NoMedia                                // the overlay goes into the title
    | TitleOverlay(url: Json)                // `snap post title` set: the overlay goes into the title
    | ImageOverlay(url: Json, text: string)  // the overlay is drawn onto the image, the title gets none

  /** The arguments of the posting worker's thread. */
  datatype Job = Job(
    recordId: RecordId,
    accountName: Json,
    postTime: DateTime,
    adsId: string,
    flair: string,
    subreddit: string,
    title: string,
    content: string,
    media: Media,
    username: Json,
    password: Option<string>,
    snapValue: string)

  datatype Decision = Skipped(reason: SkipReason) | Launch(job: Job)

  function OrDefault(v: Option<string>, default: string): string {
    if v.Some? then v.value else default
  }

  /** A list-valued Account becomes its first element; None when there is none. */
  function AccountName(account: Json): Option<Json> {
    if account.JList? then (if account.items == [] then None else Some(account.items[0]))
    else Some(account)
  }

  /** `f"{char_value}  {snap_value}"`. */
  function Overlay(f: Fields): string {
    OrDefault(f.charValue, "") + "  " + OrDefault(f.snapValue, "")
  }

  function MediaOf(f: Fields): Media {
    if !Truthy(f.media) then NoMedia
    else if f.snapPostTitle then TitleOverlay(ExtractMediaUrl(f.media))
    else ImageOverlay(ExtractMediaUrl(f.media), Overlay(f))
  }

  /** The dispatcher's handling of one queued record, with the profile
      looked up as written (`asWritten`) or by the corrected lookup. */
  function DecideWith(r: Record, accounts: seq<AdsAccount>, asWritten: bool): (d: Decision)
    ensures d.Launch? ==> d.job.recordId == r.id && d.job.username == d.job.accountName
  {
    var f := r.fields;
    if !(HasText(f.date) && HasText(f.time)) then Skipped(NoDateTime)
    else
      var postTime := ParseDateTime(f.date.value, f.time.value);
      if postTime.None? then Skipped(UnparsableDateTime)
      else
        var name := AccountName(f.account);
        if name.None? then Skipped(EmptyAccountList)
        else if !Truthy(name.value) then Skipped(NoAccount)
        else
          var (serial, password) := if asWritten then AdsAccountDataAsWritten(accounts, name.value)
                                    else AdsAccountData(accounts, name.value);
          if !HasText(serial) then Skipped(NoProfile)
          else
            var media := MediaOf(f);
            Launch(Job(r.id, name.value, postTime.value, serial.value,
                       OrDefault(f.flair, ""), OrDefault(f.subreddit, "test"),
                       OrDefault(f.title, "No title"), OrDefault(f.text, ""),
                       media, name.value, password,
                       if media.ImageOverlay? then "" else Overlay(f)))
  }

  /** The dispatcher as written (main.py's lookup). */
  function DecideAsWritten(r: Record, accounts: seq<AdsAccount>): (d: Decision)
    ensures d.Launch? ==> d.job.recordId == r.id && d.job.username == d.job.accountName
  {
    DecideWith(r, accounts, true)
  }

  /** The dispatcher with the corrected lookup, which the rest of the model
      uses. */
  function Decide(r: Record, accounts: seq<AdsAccount>): (d: Decision)
    ensures d.Launch? ==> d.job.recordId == r.id && d.job.username == d.job.accountName
  {
    DecideWith(r, accounts, false)
  }

  /** A due record whose account is configured without a profile serial is
      launched by the dispatcher as written, with the profile id "None";
      the corrected dispatcher skips it for want of a profile. */
  lemma MissingSerialLaunched(r: Record, accounts: seq<AdsAccount>, k: nat)
    requires HasText(r.fields.date) && HasText(r.fields.time)
    requires ParseDateTime(r.fields.date.value, r.fields.time.value).Some?
    requires AccountName(r.fields.account).Some? && Truthy(AccountName(r.fields.account).value)
    requires FirstMatch(accounts, AccountName(r.fields.account).value) == Some(k)
    requires accounts[k].serial.None?
    ensures DecideAsWritten(r, accounts).Launch? && DecideAsWritten(r, accounts).job.adsId == "None"
    ensures Decide(r, accounts) == Skipped(NoProfile)
  {
    MissingSerialNotCaught(accounts, AccountName(r.fields.account).value, k);
  }

  /** The account `acctA` configured without `profile_serial_number`, and a
      record for it due at 2024-12-10 14:30: the dispatcher as written
      starts the profile "None". */
  lemma AcctALaunchedWithNone(r: Record, accounts: seq<AdsAccount>)
    requires accounts == [AdsAccount("acctA", None, None, None, false)]
    requires r.fields.account == JStr("acctA")
    requires r.fields.date == Some("2024-12-10") && r.fields.time == Some("14:30")
    ensures DecideAsWritten(r, accounts).Launch? && DecideAsWritten(r, accounts).job.adsId == "None"
    ensures Decide(r, accounts) == Skipped(NoProfile)
  {
    var dt := DateTime(2024, 12, 10, 14, 30, 0);
    HalfPastText(dt);
    ParseDateTimeOfPadded(dt, true, Wide, true, true, "", "", "", "");
    assert "" + DateText(dt, true, Wide) + "" == "2024-12-10";
    assert "" + TimeText(dt, true, true) + "" == "14:30";
    assert FirstMatch(accounts, JStr("acctA")) == Some(0);
    MissingSerialLaunched(r, accounts, 0);
  }

  /** A record is handed to a worker exactly when it has a date and a time
      that parse, a truthy account name, and the first account of that name
      has a profile serial number; the job then carries that serial and the
      parsed time. */
  lemma LaunchIff(r: Record, accounts: seq<AdsAccount>)
    ensures Decide(r, accounts).Launch? <==>
            && HasText(r.fields.date) && HasText(r.fields.time)
            && ParseDateTime(r.fields.date.value, r.fields.time.value).Some?
            && AccountName(r.fields.account).Some?
            && Truthy(AccountName(r.fields.account).value)
            && exists k :: FirstMatch(accounts, AccountName(r.fields.account).value) == Some(k)
                           && HasText(accounts[k].serial)
    ensures Decide(r, accounts).Launch? ==>
            var job := Decide(r, accounts).job;
            && Some(job.postTime) == ParseDateTime(r.fields.date.value, r.fields.time.value)
            && Valid(job.postTime) && job.postTime.second == 0
            && job.accountName == AccountName(r.fields.account).value
            && FirstMatch(accounts, job.accountName).Some?
            && Some(job.adsId) == accounts[FirstMatch(accounts, job.accountName).value].serial
  {
    if HasText(r.fields.date) && HasText(r.fields.time)
       && ParseDateTime(r.fields.date.value, r.fields.time.value).Some?
       && AccountName(r.fields.account).Some?
    {
      AdsAccountDataFound(accounts, AccountName(r.fields.account).value);
    }
  }

  /** The dispatcher as written hands a record to a worker exactly when it
      has a date and a time that parse, a truthy account name, and the first
      account of that name has a serial whose `str()` is non-empty; the job
      then carries `str()` of that account's serial and password. Its two
      time-related skips are those of `Decide`. */
  lemma LaunchIffAsWritten(r: Record, accounts: seq<AdsAccount>)
    ensures DecideAsWritten(r, accounts).Launch? <==>
            && HasText(r.fields.date) && HasText(r.fields.time)
            && ParseDateTime(r.fields.date.value, r.fields.time.value).Some?
            && AccountName(r.fields.account).Some?
            && Truthy(AccountName(r.fields.account).value)
            && exists k :: FirstMatch(accounts, AccountName(r.fields.account).value) == Some(k)
                           && Str(accounts[k].serial) != ""
    ensures DecideAsWritten(r, accounts).Launch? ==>
            var job := DecideAsWritten(r, accounts).job;
            && Some(job.postTime) == ParseDateTime(r.fields.date.value, r.fields.time.value)
            && job.accountName == AccountName(r.fields.account).value
            && FirstMatch(accounts, job.accountName).Some?
            && job.adsId == Str(accounts[FirstMatch(accounts, job.accountName).value].serial)
            && job.password == Some(Str(accounts[FirstMatch(accounts, job.accountName).value].password))
    ensures DecideAsWritten(r, accounts) == Skipped(NoDateTime) <==> !(HasText(r.fields.date) && HasText(r.fields.time))
    ensures DecideAsWritten(r, accounts) == Skipped(UnparsableDateTime) <==>
            HasText(r.fields.date) && HasText(r.fields.time)
            && ParseDateTime(r.fields.date.value, r.fields.time.value).None?
  {
  }

  /** The overlay text reaches the post once: in the title for a post without
      media or with `snap post title`, on the image otherwise. */
  lemma OverlayRouting(r: Record, accounts: seq<AdsAccount>)
    requires Decide(r, accounts).Launch?
    ensures var job := Decide(r, accounts).job;
            && (job.media.ImageOverlay? ==> job.snapValue == "" && job.media.text == Overlay(r.fields))
            && (!job.media.ImageOverlay? ==> job.snapValue == Overlay(r.fields))
            && (job.media.NoMedia? <==> !Truthy(r.fields.media))
  {
  }

  /** The two time-related skips happen exactly on a missing or an
      unparsable date and time. */
  lemma TimeSkips(r: Record, accounts: seq<AdsAccount>)
    ensures Decide(r, accounts) == Skipped(NoDateTime) <==> !(HasText(r.fields.date) && HasText(r.fields.time))
    ensures Decide(r, accounts) == Skipped(UnparsableDateTime) <==>
            HasText(r.fields.date) && HasText(r.fields.time)
            && ParseDateTime(r.fields.date.value, r.fields.time.value).None?
  {
  }

  /** A record the admission tick queued at instant `now` is never skipped
      for its date or time, and its job's post time is the one found due. */
  lemma AdmittedNotSkippedForTime(rs: seq<Record>, inFlight: seq<RecordId>, now: int, r: Record, accounts: seq<AdsAccount>)
    requires r in Admitted(rs, inFlight, DueAt(now))
    ensures Decide(r, accounts) != Skipped(NoDateTime)
    ensures Decide(r, accounts) != Skipped(UnparsableDateTime)
    ensures Decide(r, accounts).Launch? ==> ShouldPostNow(Decide(r, accounts).job.postTime, now)
  {
    AdmittedOnlyAdmissible(rs, inFlight, DueAt(now));
    assert DueAt(now)(r);
    assert Due(r, now);
    var t := ParseDateTime(r.fields.date.value, r.fields.time.value);
    assert t.Some? && ShouldPostNow(t.value, now);
    TimeSkips(r, accounts);
    LaunchIff(r, accounts);
  }
}
