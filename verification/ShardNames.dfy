/** Shard names: what the writer prints, what it recognizes in the directory, and what retention removes. */
module ShardNames {
  import opened Wrappers
  import opened Lex
  import opened Decimals
  import Calendar
  import opened Protocol

  type Date = Calendar.Date

  /** The last element of `shardPath`. */
  function Name(date: Date, index: nat): string
    requires Calendar.IsShardDate(date)
  {
    Calendar.Format(date) + Suffix(index) + ".jsonl"
  }

  /** For example. */
  lemma NamesLookLikeThis()
    ensures Name(Calendar.Date(2026, 6, 5), 0) == "2026-06-05.jsonl"
    ensures Name(Calendar.Date(2026, 6, 5), 12) == "2026-06-05-12.jsonl"
  {
    hide Calendar.Format;
    Calendar.FormatLooksLikeThis();
  }

  predicate HasSuffix(s: string, suffix: string) {
    |s| >= |suffix| && s[|s| - |suffix|..] == suffix
  }

  datatype ShardName = ShardName(date: Date, index: nat)

  /** `parseShardName`. */
  function Parse(name: string): (r: Option<ShardName>)
    ensures r.Some? ==> Calendar.IsShardDate(r.value.date) && r.value.index <= MAX_INT
  {
    if !HasSuffix(name, ".jsonl") then None
    else
      var rest := name[..|name| - 6];
      if |rest| < 10 then None
      else
        var date, index := Calendar.Parse(rest[..10]), ParseIndex(rest[10..]);
        if date.None? || index.None? then None else Some(ShardName(date.value, index.value))
  }

  /** What follows the date: nothing for index 0, or a hyphen and anything that `Atoi` reads as 1 or more. */
  function ParseIndex(suffix: string): (r: Option<nat>)
    ensures r.Some? ==> r.value <= MAX_INT
  {
    if suffix == "" then Some(0)
    else if suffix[0] != '-' then None
    else
      var index := Atoi(suffix[1..]);
      if index.None? || index.value < 1 then None else Some(index.value)
  }

  lemma ParseOfParts(date: Date, suffix: string)
    requires Calendar.IsShardDate(date)
    ensures Parse(Calendar.Format(date) + suffix + ".jsonl")
            == if ParseIndex(suffix).None? then None else Some(ShardName(date, ParseIndex(suffix).value))
  {
    hide Calendar.Format, Calendar.Parse, ParseIndex;
    Calendar.FormatFields(date);
    Calendar.ParseOfFormat(date);
    var name := Calendar.Format(date) + suffix + ".jsonl";
    var rest := name[..|name| - 6];
    assert rest[..10] == Calendar.Format(date) && rest[10..] == suffix;
  }

  lemma PartsOfParse(name: string)
    requires Parse(name).Some?
    ensures |name| >= 16
    ensures name == Calendar.Format(Parse(name).value.date) + name[10..|name| - 6] + ".jsonl"
    ensures name[..10] == Calendar.Format(Parse(name).value.date)
    ensures ParseIndex(name[10..|name| - 6]) == Some(Parse(name).value.index)
  {
    hide Calendar.Format, Calendar.Parse, ParseIndex;
    Calendar.FormatOfParse(name[..|name| - 6][..10]);
    assert name[..|name| - 6][..10] == name[..10];
    assert name[..|name| - 6][10..] == name[10..|name| - 6];
    assert name == name[..10] + name[10..|name| - 6] + name[|name| - 6..];
  }

  function Suffix(index: nat): string {
    if index > 0 then "-" + Itoa(index) else ""
  }

  lemma ParseOfSuffix(index: nat)
    requires index <= MAX_INT
    ensures ParseIndex(Suffix(index)) == Some(index)
  {
    if index > 0 { assert Suffix(index)[1..] == Itoa(index); }
  }

  /** A printed name is recognized as what it was printed from. */
  lemma NamesRoundTrip(date: Date, index: nat)
    requires Calendar.IsShardDate(date) && index <= MAX_INT
    ensures Parse(Name(date, index)) == Some(ShardName(date, index))
  {
    hide Parse;
    ParseOfParts(date, Suffix(index));
    ParseOfSuffix(index);
  }

  /**
   Not every recognized name is one that the writer prints: that is so exactly when the index, if
   there is one, has no plus sign and no leading zero.
   */
  lemma RecognizedNamesAreOurs(name: string)
    requires Parse(name).Some?
    ensures Name(Parse(name).value.date, Parse(name).value.index) == name
            <==> |name| <= 17 || (name[11] != '+' && name[11] != '0')
  {
    hide Parse, Calendar.Format;
    PartsOfParse(name);
    var date, index, suffix := Parse(name).value.date, Parse(name).value.index, name[10..|name| - 6];
    SuffixIsPrinted(suffix);
    assert Name(date, index) == Calendar.Format(date) + Suffix(index) + ".jsonl";
    if Name(date, index) == name {
      assert |Suffix(index)| == |suffix|;
      assert Suffix(index) == Name(date, index)[10..|name| - 6];
    }
  }

  lemma SuffixIsPrinted(suffix: string)
    requires ParseIndex(suffix).Some?
    ensures Suffix(ParseIndex(suffix).value) == suffix <==> |suffix| <= 1 || (suffix[1] != '+' && suffix[1] != '0')
  {
    if suffix != "" {
      var text := suffix[1..];
      assert suffix == "-" + text;
      if text[0] != '+' && text[0] != '0' {
        ItoaOfNumber(text);
      } else {
        assert Suffix(Atoi(text).value)[1..] == Itoa(Atoi(text).value);
      }
    }
  }

  function Impostor(date: Date, index: nat, sign: char): string
    requires Calendar.IsShardDate(date)
  {
    Calendar.Format(date) + ("-" + [sign] + Itoa(index)) + ".jsonl"
  }

  /** Every indexed shard has impostors: files of somebody else that the writer takes for that shard. */
  lemma ImpostorIsRecognized(date: Date, index: nat, sign: char)
    requires Calendar.IsShardDate(date) && 1 <= index <= MAX_INT && (sign == '0' || sign == '+')
    ensures Parse(Impostor(date, index, sign)) == Some(ShardName(date, index))
    ensures Impostor(date, index, sign) != Name(date, index)
  {
    hide Parse, Calendar.Format;
    var text := [sign] + Itoa(index);
    var suffix := "-" + [sign] + Itoa(index);
    NumberOfZeroed(Itoa(index));
    assert suffix[1..] == text && text[1..] == Itoa(index);
    ParseOfParts(date, suffix);
    assert |Impostor(date, index, sign)| == |Name(date, index)| + 1;
  }

  lemma {:induction false} NumberOfZeroed(s: string)
    requires AllDigits(s)
    ensures AllDigits("0" + s) && Number("0" + s) == Number(s)
  {
    if s == "" {
      assert Number("0") == 10 * Number("") + 0;
    } else {
      NumberOfZeroed(s[..|s| - 1]);
      assert ("0" + s)[..|s|] == "0" + s[..|s| - 1];
    }
  }

  // Listings

  function ShardOf(shard: ShardName): Shard
    requires Calendar.IsDate(shard.date)
  {
    Shard(Calendar.DayNumber(shard.date), shard.index)
  }

  /** The directory entry of a shard. Different shards have different entries. */
  lemma EntriesAreDistinct(a: ShardName, b: ShardName)
    requires Calendar.IsShardDate(a.date) && Calendar.IsShardDate(b.date) && a.index <= MAX_INT && b.index <= MAX_INT
    ensures Name(a.date, a.index) == Name(b.date, b.index) <==> ShardOf(a) == ShardOf(b)
  {
    NamesRoundTrip(a.date, a.index);
    NamesRoundTrip(b.date, b.index);
    Calendar.DayNumberOrder(a.date, b.date);
  }

  /** The shards that the writer sees in a listing. */
  function Recognized(names: set<string>): set<ShardName> {
    set name | name in names && Parse(name).Some? :: Parse(name).value
  }

  /**
   A listing shows the writer's own shards and whatever else is recognized among the other names;
   so it shows exactly the writer's shards if and only if nothing else that is recognized is new.
   */
  lemma ListingShowsTheShards(shards: set<ShardName>, others: set<string>)
    requires forall shard :: shard in shards ==> Calendar.IsShardDate(shard.date) && shard.index <= MAX_INT
    ensures var own := set shard | shard in shards :: Name(shard.date, shard.index);
            && Recognized(own + others) == shards + Recognized(others)
            && (Recognized(own + others) == shards <==> Recognized(others) <= shards)
  {
    hide Parse, Name;
    var own := set shard | shard in shards :: Name(shard.date, shard.index);
    forall shard | shard in shards ensures Parse(Name(shard.date, shard.index)) == Some(shard) {
      NamesRoundTrip(shard.date, shard.index);
    }
    forall shard ensures shard in Recognized(own + others) <==> shard in shards + Recognized(others) {
      if shard in shards {
        var name := Name(shard.date, shard.index);
        assert name in own + others && Parse(name).Some?;
      } else if shard in Recognized(others) {
        var name :| name in others && Parse(name).Some? && Parse(name).value == shard;
        assert name in own + others;
      }
    }
  }

  // Retention

  /** What a sweep removes: recognized names whose date sorts before the cutoff as a string. */
  predicate Expired(name: string, cutoff: string) {
    Parse(name).Some? && Less(name[..10], cutoff)
  }

  /**
   Comparing strings is calendar arithmetic: with today's date and any number of days to keep, the
   sweep removes exactly the recognized shards whose day is more than that many days ago.
   */
  lemma RetentionIsCalendarCorrect(name: string, today: Date, retentionDays: nat)
    requires Calendar.IsShardDate(today)
    ensures Expired(name, Calendar.Format(Calendar.DaysAgo(today, retentionDays)))
            <==> Parse(name).Some?
                 && Calendar.DayNumber(Parse(name).value.date) < Calendar.DayNumber(today) - retentionDays
  {
    hide Parse, Less, Calendar.Format, Calendar.DayNumber, Calendar.DaysAgo;
    var cutoff := Calendar.DaysAgo(today, retentionDays);
    Calendar.DaysAgoSubtracts(today, retentionDays);
    if Parse(name).Some? {
      PartsOfParse(name);
      DaysAgoIsNotLater(today, retentionDays);
      Calendar.StringOrderIsDayOrder(Parse(name).value.date, cutoff);
    }
  }

  lemma {:induction false} DaysAgoIsNotLater(today: Date, n: nat)
    requires Calendar.IsDate(today)
    ensures Calendar.DaysAgo(today, n).year <= today.year
  {
    if n > 0 { DaysAgoIsNotLater(today, n - 1); }
  }

  /** The retention promise on names the writer prints, by shard of the protocol. */
  lemma OwnShardsExpireByDay(date: Date, index: nat, today: Date, retentionDays: nat)
    requires Calendar.IsShardDate(date) && Calendar.IsShardDate(today) && index <= MAX_INT
    ensures Expired(Name(date, index), Calendar.Format(Calendar.DaysAgo(today, retentionDays)))
            <==> ShardOf(ShardName(date, index)).day < Calendar.DayNumber(today) - retentionDays
  {
    NamesRoundTrip(date, index);
    RetentionIsCalendarCorrect(Name(date, index), today, retentionDays);
  }

  /** Somebody else's file is swept away as well: its name is recognized, so its date decides. */
  lemma ImpostorsExpireToo(date: Date, index: nat, sign: char, today: Date, retentionDays: nat)
    requires Calendar.IsShardDate(date) && Calendar.IsShardDate(today)
    requires 1 <= index <= MAX_INT && (sign == '0' || sign == '+')
    ensures Expired(Impostor(date, index, sign), Calendar.Format(Calendar.DaysAgo(today, retentionDays)))
            <==> Calendar.DayNumber(date) < Calendar.DayNumber(today) - retentionDays
  {
    ImpostorIsRecognized(date, index, sign);
    RetentionIsCalendarCorrect(Impostor(date, index, sign), today, retentionDays);
  }
}
