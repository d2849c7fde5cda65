/**
 * The leaderboard decoder of LeaderboardScreen.kt: the stored string
 * `name,score|name,score|...` becomes a list of entries, and every segment
 * that is not exactly two fields with an `Int` score is silently dropped.
 * The platform key-value store is not modelled: the stored value is a parameter.
 */
module Leaderboard {
  import opened Options
  import opened KotlinText
  import opened NotNull

  /** Separates whole entries in the stored string (`ENTRY_DELIMITER`). */
  const EntryDelimiter: char := '|'
  /** Separates the name from the score inside one entry (`FIELD_DELIMITER`). */
  const FieldDelimiter: char := ','

  /** One player's recorded result. */
  datatype Entry = Entry(name: string, score: int)

  /** A name the flat format can carry: it holds neither delimiter. */
  predicate ValidName(name: string) {
    EntryDelimiter !in name && FieldDelimiter !in name
  }

  /** An entry the flat format can carry: a valid name and a score that fits an `Int`. */
  predicate ValidEntry(e: Entry) {
    ValidName(e.name) && InIntRange(e.score)
  }

  // ---------------------------------------------------------------------------
  // Decoding
  // ---------------------------------------------------------------------------

  /**
   * The body of the `mapNotNull` lambda: split one segment on the field
   * delimiter; keep it only when there are exactly two fields and the second
   * one parses as an `Int`.
   */
  function DecodeEntry(segment: string): (r: Option<Entry>)
    ensures r.Some? ==> Occurrences(segment, FieldDelimiter) == 1
    ensures r.Some? ==> FieldDelimiter !in r.value.name && InIntRange(r.value.score)
  {
    var fields := Split(segment, FieldDelimiter);
    if |fields| == 2 then
      match ToIntOrNull(fields[1])
      case Some(score) => Some(Entry(fields[0], score))
      case None => None
    else
      None
  }

  /** The lambda applied to every segment, before the nulls are dropped. */
  function DecodeEach(segments: seq<string>): seq<Option<Entry>> {
    seq(|segments|, i requires 0 <= i < |segments| => DecodeEntry(segments[i]))
  }

  /** `segments.mapNotNull(DecodeEntry)`: the decoded segments, in order, dropping failures. */
  function DecodeAll(segments: seq<string>): (r: seq<Entry>)
    ensures |r| <= |segments|
    ensures forall k :: 0 <= k < |r| ==> FieldDelimiter !in r[k].name && InIntRange(r[k].score)
  {
    var decoded := DecodeEach(segments);
    var r := FilterNotNull(decoded);
    assert forall k :: 0 <= k < |r| ==> exists i :: 0 <= i < |decoded| && decoded[i] == Some(r[k]);
    r
  }

  /** `loadLeaderboard`, given the stored value: empty means no entries. */
  function LoadLeaderboard(data: string): (r: seq<Entry>)
    ensures data == [] ==> r == []
    ensures |r| <= Occurrences(data, EntryDelimiter) + 1
    ensures forall k :: 0 <= k < |r| ==> ValidEntry(r[k])
  {
    if data == [] then []
    else
      var segments := Split(data, EntryDelimiter);
      DecodeAllNames(segments);
      DecodeAll(segments)
  }

  /**
   * `getString("leaderboard_data", "") ?: ""` followed by `loadLeaderboard`:
   * an absent value reads as the empty string.
   */
  function LoadStored(stored: Option<string>): (r: seq<Entry>)
    ensures stored.None? ==> r == []
    ensures stored.Some? ==> r == LoadLeaderboard(stored.value)
    ensures stored.Some? ==> |r| <= Occurrences(stored.value, EntryDelimiter) + 1
  {
    LoadLeaderboard(stored.GetOr(""))
  }

  // ---------------------------------------------------------------------------
  // Properties of decoding
  // ---------------------------------------------------------------------------

  /** A name decoded from a segment holds no character the segment lacks. */
  lemma DecodeEntryNameFrom(segment: string, c: char)
    requires c !in segment
    requires DecodeEntry(segment).Some?
    ensures c !in DecodeEntry(segment).value.name
  {
    SplitPieceFrom(segment, FieldDelimiter, 0, c);
  }

  /** Segments cut on the entry delimiter yield names free of both delimiters. */
  lemma DecodeAllNames(segments: seq<string>)
    requires forall i :: 0 <= i < |segments| ==> EntryDelimiter !in segments[i]
    ensures forall k :: 0 <= k < |DecodeAll(segments)| ==> ValidEntry(DecodeAll(segments)[k])
  {
    var decoded := DecodeEach(segments);
    var r := DecodeAll(segments);
    forall k | 0 <= k < |r| ensures ValidEntry(r[k]) {
      assert Some(r[k]) in decoded;
      var i :| 0 <= i < |decoded| && decoded[i] == Some(r[k]);
      DecodeEntryNameFrom(segments[i], EntryDelimiter);
    }
  }

  /**
   * A segment with exactly one field delimiter, at position `i`, is decoded
   * to the text before it as the name and the text after it as the score,
   * or dropped when that text is not an `Int`.
   */
  lemma DecodeEntryAt(segment: string, i: nat)
    requires i < |segment| && segment[i] == FieldDelimiter
    requires FieldDelimiter !in segment[..i] && FieldDelimiter !in segment[i + 1..]
    ensures DecodeEntry(segment) ==
              match ToIntOrNull(segment[i + 1..])
              case Some(score) => Some(Entry(segment[..i], score))
              case None => None
  {
    assert segment == segment[..i] + [FieldDelimiter] + segment[i + 1..];
    SplitPrefix(segment[..i], FieldDelimiter, segment[i + 1..]);
    SplitNoDelimiter(segment[i + 1..], FieldDelimiter);
  }

  /**
   * A segment yields an entry if and only if it holds exactly one field
   * delimiter and the text after it parses as an `Int`.
   */
  lemma DecodeEntryIff(segment: string)
    ensures DecodeEntry(segment).Some? <==>
              exists i :: 0 <= i < |segment| && segment[i] == FieldDelimiter
                          && FieldDelimiter !in segment[..i] && FieldDelimiter !in segment[i + 1..]
                          && ToIntOrNull(segment[i + 1..]).Some?
  {
    var fields := Split(segment, FieldDelimiter);
    if DecodeEntry(segment).Some? {
      JoinSplit(segment, FieldDelimiter);
      assert Join(fields, FieldDelimiter) == fields[0] + [FieldDelimiter] + fields[1];
      var i := |fields[0]|;
      assert segment[..i] == fields[0] && segment[i + 1..] == fields[1];
      assert segment[i] == FieldDelimiter;
    }
    if exists i :: 0 <= i < |segment| && segment[i] == FieldDelimiter
                   && FieldDelimiter !in segment[..i] && FieldDelimiter !in segment[i + 1..]
                   && ToIntOrNull(segment[i + 1..]).Some? {
      var i :| 0 <= i < |segment| && segment[i] == FieldDelimiter
               && FieldDelimiter !in segment[..i] && FieldDelimiter !in segment[i + 1..]
               && ToIntOrNull(segment[i + 1..]).Some?;
      DecodeEntryAt(segment, i);
    }
  }

  /** `mapNotNull` distributes over concatenation: it filters but never reorders. */
  lemma DecodeAllAppend(a: seq<string>, b: seq<string>)
    ensures DecodeAll(a + b) == DecodeAll(a) + DecodeAll(b)
  {
    assert DecodeEach(a + b) == DecodeEach(a) + DecodeEach(b);
    FilterNotNullAppend(DecodeEach(a), DecodeEach(b));
  }

  /** A single segment decodes to its entry, or to nothing. */
  lemma DecodeAllSingle(segment: string)
    ensures DecodeAll([segment]) == match DecodeEntry(segment) case Some(e) => [e] case None => []
  {
    assert DecodeEach([segment]) == [DecodeEntry(segment)];
    assert DecodeEach([segment])[1..] == [];
  }

  /**
   * For each decoded entry, the index of the segment it came from: the indices
   * increase strictly, and every segment that decodes is among them. So the
   * output keeps the order of the segments and loses only those that fail.
   */
  lemma DecodeAllOrigins(segments: seq<string>)
    ensures var idx := Origins(DecodeEach(segments));
            && |idx| == |DecodeAll(segments)|
            && (forall k :: 0 <= k < |idx| ==>
                  idx[k] < |segments| && DecodeEntry(segments[idx[k]]) == Some(DecodeAll(segments)[k]))
            && (forall k, l :: 0 <= k < l < |idx| ==> idx[k] < idx[l])
            && (forall i :: 0 <= i < |segments| && DecodeEntry(segments[i]).Some? ==> i in idx)
  {
    var idx := Origins(DecodeEach(segments));
    assert IsOrigins(DecodeEach(segments), idx);
  }

  /** The early `isEmpty` return is a shortcut: the general path also decodes `""` to nothing. */
  lemma EmptyGuardRedundant()
    ensures DecodeAll(Split("", EntryDelimiter)) == []
  {
    assert Split("", EntryDelimiter) == [""];
    assert Occurrences("", FieldDelimiter) == 0;
    DecodeAllSingle("");
  }

  // ---------------------------------------------------------------------------
  // Encoding: the canonical writer of the stored format
  // ---------------------------------------------------------------------------

  /** `name,score`, with the score written by `Int.toString`. */
  function EncodeEntry(e: Entry): (s: string)
    ensures FieldDelimiter in s
  {
    e.name + [FieldDelimiter] + Decimal(e.score)
  }

  /** One record per entry. */
  function EncodeRecords(entries: seq<Entry>): (records: seq<string>)
    ensures |records| == |entries|
    ensures forall i :: 0 <= i < |entries| ==> records[i] == EncodeEntry(entries[i])
  {
    if entries == [] then [] else [EncodeEntry(entries[0])] + EncodeRecords(entries[1..])
  }

  /** The records of `entries`, joined by the entry delimiter. */
  function Encode(entries: seq<Entry>): string {
    Join(EncodeRecords(entries), EntryDelimiter)
  }

  /** The written score never holds a delimiter. */
  lemma DecimalHasNoDelimiter(n: int)
    ensures EntryDelimiter !in Decimal(n) && FieldDelimiter !in Decimal(n)
  {
  }

  /** One record written from a valid entry decodes back to that entry. */
  lemma DecodeEncodeEntry(e: Entry)
    requires ValidEntry(e)
    ensures DecodeEntry(EncodeEntry(e)) == Some(e)
  {
    DecimalHasNoDelimiter(e.score);
    SplitPrefix(e.name, FieldDelimiter, Decimal(e.score));
    SplitNoDelimiter(Decimal(e.score), FieldDelimiter);
    DecimalRoundTrip(e.score);
  }

  /** Decoding the records of valid entries gives back those entries, in order. */
  lemma DecodeAllEncoded(entries: seq<Entry>)
    requires forall k :: 0 <= k < |entries| ==> ValidEntry(entries[k])
    ensures DecodeAll(EncodeRecords(entries)) == entries
  {
    var decoded := DecodeEach(EncodeRecords(entries));
    forall i | 0 <= i < |entries| ensures decoded[i] == Some(entries[i]) {
      DecodeEncodeEntry(entries[i]);
    }
    FilterNotNullAllPresent(decoded, entries);
  }

  /**
   * Round trip: the stored string written for a list of valid entries (the
   * empty list included, which is written as `""`) loads back as exactly that
   * list, in the same order.
   */
  lemma RoundTrip(entries: seq<Entry>)
    requires forall k :: 0 <= k < |entries| ==> ValidEntry(entries[k])
    ensures LoadLeaderboard(Encode(entries)) == entries
  {
    var records := EncodeRecords(entries);
    if entries != [] {
      forall i | 0 <= i < |records| ensures EntryDelimiter !in records[i] {
        DecimalHasNoDelimiter(entries[i].score);
      }
      SplitJoin(records, EntryDelimiter);
      assert |Join(records, EntryDelimiter)| >= |records[0]| > 0;
      DecodeAllEncoded(entries);
    }
  }

  /** A stored value written for valid entries is read back through the `?: ""` default unchanged. */
  lemma LoadStoredRoundTrip(entries: seq<Entry>)
    requires forall k :: 0 <= k < |entries| ==> ValidEntry(entries[k])
    ensures LoadStored(Some(Encode(entries))) == entries
  {
    RoundTrip(entries);
  }

  /**
   * The format has no escaping: a name holding the field delimiter is written
   * as a record of three fields, which is then dropped.
   */
  lemma NameWithFieldDelimiterIsLost(e: Entry)
    requires EntryDelimiter !in e.name && FieldDelimiter in e.name && InIntRange(e.score)
    ensures LoadLeaderboard(Encode([e])) == []
  {
    var record := EncodeEntry(e);
    assert Encode([e]) == record;
    DecimalHasNoDelimiter(e.score);
    SplitNoDelimiter(record, EntryDelimiter);
    assert multiset(record)[FieldDelimiter] >= 2;
  }

  /**
   * A name holding the entry delimiter is cut in two: the part before it
   * (one field only) is dropped, and the part after it comes back as an entry
   * of its own.
   */
  lemma NameWithEntryDelimiterIsCut(data: string, p: string, q: string, score: int)
    requires ValidName(p) && ValidName(q) && InIntRange(score)
    requires data == Encode([Entry(p + [EntryDelimiter] + q, score)])
    ensures LoadLeaderboard(data) == [Entry(q, score)]
  {
    var record := EncodeEntry(Entry(q, score));
    EncodeCutName(p, q, score);
    assert Split(data, EntryDelimiter) == [p, record] by {
      RecordHasNoEntryDelimiter(Entry(q, score));
      SplitJoin([p, record], EntryDelimiter);
    }
    assert data != [] by {
      assert |data| >= |record| > 0;
    }
    LoadSegments(data, [p, record]);
    DecodeFieldThenRecord(p, Entry(q, score));
  }

  /** A name holding the entry delimiter is written as two segments. */
  lemma EncodeCutName(p: string, q: string, score: int)
    ensures Encode([Entry(p + [EntryDelimiter] + q, score)]) == Join([p, EncodeEntry(Entry(q, score))], EntryDelimiter)
  {
    var cut := Entry(p + [EntryDelimiter] + q, score);
    assert EncodeRecords([cut]) == [EncodeEntry(cut)];
    assert Join([p, EncodeEntry(Entry(q, score))], EntryDelimiter)
        == p + [EntryDelimiter] + EncodeEntry(Entry(q, score)) by {
      assert [p, EncodeEntry(Entry(q, score))][1..] == [EncodeEntry(Entry(q, score))];
    }
  }

  /** A record written from a valid entry holds no entry delimiter. */
  lemma RecordHasNoEntryDelimiter(e: Entry)
    requires ValidEntry(e)
    ensures EntryDelimiter !in EncodeEntry(e)
  {
    DecimalHasNoDelimiter(e.score);
  }

  lemma DecodeFieldThenRecord(p: string, e: Entry)
    requires ValidName(p) && ValidEntry(e)
    ensures DecodeAll([p, EncodeEntry(e)]) == [e]
  {
    var record := EncodeEntry(e);
    assert DecodeAll([p]) == [] by {
      assert Occurrences(p, FieldDelimiter) == 0;
      DecodeAllSingle(p);
    }
    assert DecodeAll([record]) == [e] by {
      DecodeEncodeEntry(e);
      DecodeAllSingle(record);
    }
    DecodeAllAppend([p], [record]);
    assert [p] + [record] == [p, record];
  }

  /** A non-empty stored string is decoded segment by segment. */
  lemma LoadSegments(data: string, segments: seq<string>)
    requires data != [] && Split(data, EntryDelimiter) == segments
    ensures LoadLeaderboard(data) == DecodeAll(segments)
  {
  }

  /**
   * The shape of `"Ana,50||Bruno,x,y"`: a good record, an empty segment and a
   * segment of three fields. Only the good record survives.
   */
  lemma DropsMalformedSegments(data: string, e: Entry, a: string, b: string, c: string)
    requires ValidEntry(e) && ValidName(a) && ValidName(b) && ValidName(c)
    requires data == Join([EncodeEntry(e), "", a + [FieldDelimiter] + b + [FieldDelimiter] + c], EntryDelimiter)
    ensures LoadLeaderboard(data) == [e]
  {
    var bad := a + [FieldDelimiter] + b + [FieldDelimiter] + c;
    var segments := [EncodeEntry(e), "", bad];
    assert Split(data, EntryDelimiter) == segments by {
      DecimalHasNoDelimiter(e.score);
      assert EntryDelimiter !in bad;
      SplitJoin(segments, EntryDelimiter);
    }
    assert Occurrences(bad, FieldDelimiter) == 2 by {
      assert multiset(bad) == multiset(a) + multiset{FieldDelimiter} + multiset(b)
                              + multiset{FieldDelimiter} + multiset(c);
    }
    assert data != [] by {
      assert |data| >= |segments[0]| > 0;
    }
    LoadSegments(data, segments);
    DecodeGoodEmptyBad(e, bad);
  }

  lemma DecodeGoodEmptyBad(e: Entry, bad: string)
    requires ValidEntry(e) && Occurrences(bad, FieldDelimiter) == 2
    ensures DecodeAll([EncodeEntry(e), "", bad]) == [e]
  {
    var good := EncodeEntry(e);
    assert DecodeAll([good]) == [e] by {
      DecodeEncodeEntry(e);
      DecodeAllSingle(good);
    }
    assert DecodeAll([""]) == [] by {
      assert Occurrences("", FieldDelimiter) == 0;
      DecodeAllSingle("");
    }
    assert DecodeAll([bad]) == [] by {
      DecodeAllSingle(bad);
    }
    assert DecodeAll([good, ""]) == [e] by {
      DecodeAllAppend([good], [""]);
      assert [good] + [""] == [good, ""];
    }
    DecodeAllAppend([good, ""], [bad]);
    assert [good, ""] + [bad] == [good, "", bad];
  }

  /** Worked example: `Ana,50||Bruno,x,y` loads as the single entry for Ana. */
  lemma AnaOnly()
    ensures LoadLeaderboard("Ana,50||Bruno,x,y") == [Entry("Ana", 50)]
  {
    AnaOnlyStored();
    DropsMalformedSegments("Ana,50||Bruno,x,y", Entry("Ana", 50), "Bruno", "x", "y");
  }

  /** `Ana,50||Bruno,x,y` is a record for Ana, an empty segment and a segment of three fields. */
  lemma AnaOnlyStored()
    ensures "Ana,50||Bruno,x,y" == Join([EncodeEntry(Entry("Ana", 50)), "",
                                         "Bruno" + [FieldDelimiter] + "x" + [FieldDelimiter] + "y"], EntryDelimiter)
  {
    AnaRecord();
    assert "Bruno" + [FieldDelimiter] + "x" + [FieldDelimiter] + "y" == "Bruno,x,y";
    JoinThree("Ana,50", "", "Bruno,x,y", EntryDelimiter);
    AnaOnlyText();
  }

  /** Ana's record is written `Ana,50`. */
  lemma AnaRecord()
    ensures EncodeEntry(Entry("Ana", 50)) == "Ana,50"
  {
    assert Digits(5) == "5";
  }

  /** The three segments of the example, with the entry delimiter between them. */
  lemma AnaOnlyText()
    ensures "Ana,50" + [EntryDelimiter] + "" + [EntryDelimiter] + "Bruno,x,y" == "Ana,50||Bruno,x,y"
  {
  }

  /** Bruno's record is written `Bruno,80`. */
  lemma BrunoRecord()
    ensures EncodeEntry(Entry("Bruno", 80)) == "Bruno,80"
  {
    assert Digits(8) == "8";
  }

  /** Carla's record is written `Carla,30`. */
  lemma CarlaRecord()
    ensures EncodeEntry(Entry("Carla", 30)) == "Carla,30"
  {
    assert Digits(3) == "3";
  }

  /** Three entries are written as their three records joined by the entry delimiter. */
  lemma EncodeThree(a: Entry, b: Entry, c: Entry)
    ensures Encode([a, b, c]) == EncodeEntry(a) + [EntryDelimiter] + EncodeEntry(b) + [EntryDelimiter] + EncodeEntry(c)
  {
    var records := EncodeRecords([a, b, c]);
    assert records == [EncodeEntry(a), EncodeEntry(b), EncodeEntry(c)];
    JoinThree(EncodeEntry(a), EncodeEntry(b), EncodeEntry(c), EntryDelimiter);
  }

  /** `Ana,50|Bruno,80|Carla,30` is what the writer produces for those three entries. */
  lemma ThreePlayersStored()
    ensures "Ana,50|Bruno,80|Carla,30" == Encode([Entry("Ana", 50), Entry("Bruno", 80), Entry("Carla", 30)])
  {
    EncodeThree(Entry("Ana", 50), Entry("Bruno", 80), Entry("Carla", 30));
    AnaRecord();
    BrunoRecord();
    CarlaRecord();
    ThreePlayersText();
  }

  /** The three records of the example, with the entry delimiter between them. */
  lemma ThreePlayersText()
    ensures "Ana,50" + [EntryDelimiter] + "Bruno,80" + [EntryDelimiter] + "Carla,30" == "Ana,50|Bruno,80|Carla,30"
  {
  }

  /** Three parts joined with a delimiter. */
  lemma JoinThree(a: string, b: string, c: string, d: char)
    ensures Join([a, b, c], d) == a + [d] + b + [d] + c
  {
    assert Join([b, c], d) == b + [d] + c by {
      assert [b, c][1..] == [c];
    }
    assert [a, b, c][1..] == [b, c];
  }
}
