/** `parse_zonefile`: the root-zone line filter and the two structures it
    builds, the TLD-to-nameserver map and the set of all nameservers. */
module ZoneFile {
  import opened Text

  /** One accepted NS record: the lowercased owner name and target. */
  datatype NsEntry = NsEntry(tld: string, ns: string)

  /** What the parser decides about one line, one case per `continue` in
      the loop plus the accepting case. */
  datatype LineVerdict =
    | Comment
    | WrongFieldCount
    | NotTld
    | NotInternetClass
    | NotNs
    | Accepted(entry: NsEntry)

  datatype ZoneMaps = ZoneMaps(tldNs: map<string, set<string>>, nsSet: set<string>)

  const Empty := ZoneMaps(map[], {})

  /** The owner-name test of the loop, written as the source writes it:
      the first and the last dot are at the same index. That is the case
      exactly when the name has at most one dot. */
  predicate PassesDotFilter(name: string): (b: bool)
    ensures b <==> Count(name, '.') <= 1
  {
    FindIsRFindIffAtMostOne(name, '.');
    Find(name, '.') == RFind(name, '.')
  }

  /** The body of the read loop for one line: strip, skip comments, split
      on tab runs, and keep five-field IN NS records whose name passes the
      dot test, lowercasing name and target. */
  function ClassifyLine(line: string): (v: LineVerdict)
    ensures v.Accepted? ==> IsLowerCase(v.entry.tld) && IsLowerCase(v.entry.ns)
  {
    var t := Strip(line);
    if |t| > 0 && t[0] == '#' then Comment
    else
      var row := SplitTabRuns(t);
      if |row| != 5 then WrongFieldCount
      else
        var rname := ToLower(row[0]);
        var rclass := ToUpper(row[2]);
        var rtype := ToUpper(row[3]);
        var rr := ToLower(row[4]);
        if !PassesDotFilter(rname) then NotTld
        else if rclass != "IN" then NotInternetClass
        else if rtype != "NS" then NotNs
        else Accepted(NsEntry(rname, rr))
  }

  /** Records one accepted entry in both structures. */
  function AddEntry(z: ZoneMaps, e: NsEntry): (r: ZoneMaps)
    ensures r.nsSet == z.nsSet + {e.ns}
    ensures r.tldNs.Keys == z.tldNs.Keys + {e.tld}
    ensures r.tldNs[e.tld] == (if e.tld in z.tldNs then z.tldNs[e.tld] else {}) + {e.ns}
    ensures forall k :: k in z.tldNs && k != e.tld ==> r.tldNs[k] == z.tldNs[k]
  {
    var m := z.tldNs;
    var s := if e.tld in m && m[e.tld] != {} then m[e.tld] + {e.ns} else {e.ns};
    ZoneMaps(m[e.tld := s], z.nsSet + {e.ns})
  }

  /** One iteration of the read loop: an accepted line adds the pair of its
      entry, and no line adds any other pair. */
  function ParseLine(z: ZoneMaps, line: string): (r: ZoneMaps)
    ensures forall k, n :: (k in r.tldNs && n in r.tldNs[k]) <==>
      ((k in z.tldNs && n in z.tldNs[k]) || ClassifyLine(line) == Accepted(NsEntry(k, n)))
  {
    match ClassifyLine(line)
    case Accepted(e) => AddEntry(z, e)
    case _ => z
  }

  /** The read loop, from a given state over the remaining lines. */
  function ParseFrom(z: ZoneMaps, lines: seq<string>): (r: ZoneMaps)
    ensures z.nsSet <= r.nsSet && z.tldNs.Keys <= r.tldNs.Keys
    ensures forall k :: k in z.tldNs ==> z.tldNs[k] <= r.tldNs[k]
    decreases |lines|
  {
    if |lines| == 0 then z else ParseFrom(ParseLine(z, lines[0]), lines[1..])
  }

  /** `parse_zonefile`: after the whole file, every TLD maps to a non-empty
      set and the nameserver set is the union of those sets. */
  function ParseZoneFile(lines: seq<string>): (z: ZoneMaps)
    ensures WellFormed(z)
  {
    ParseFromKeepsWellFormed(Empty, lines);
    ParseFrom(Empty, lines)
  }

  // ---------------------------------------------------------------------
  // Line acceptance

  /** The conditions under which a line contributes, stated without the
      parser's own find/rfind test: the name carries at most one dot. */
  predicate Contributes(line: string) {
    var t := Strip(line);
    var row := SplitTabRuns(t);
    && !(|t| > 0 && t[0] == '#')
    && |row| == 5
    && Count(row[0], '.') <= 1
    && ToUpper(row[2]) == "IN"
    && ToUpper(row[3]) == "NS"
  }

  /** A line is accepted exactly when it contributes, and then it yields its
      lowercased name and target. */
  lemma AcceptedIffContributes(line: string)
    ensures ClassifyLine(line).Accepted? <==> Contributes(line)
    ensures Contributes(line) ==>
      var row := SplitTabRuns(Strip(line));
      ClassifyLine(line) == Accepted(NsEntry(ToLower(row[0]), ToLower(row[4])))
  {
    var t := Strip(line);
    var row := SplitTabRuns(t);
    if !(|t| > 0 && t[0] == '#') && |row| == 5 {
      FindIsRFindIffAtMostOne(ToLower(row[0]), '.');
      CountUnderLower(row[0]);
    }
  }

  /** Every accepted entry has a name with at most one dot and a lowercase
      name and target. */
  lemma AcceptedEntryShape(line: string)
    requires ClassifyLine(line).Accepted?
    ensures Count(ClassifyLine(line).entry.tld, '.') <= 1
    ensures IsLowerCase(ClassifyLine(line).entry.tld)
    ensures IsLowerCase(ClassifyLine(line).entry.ns)
  {
    var row := SplitTabRuns(Strip(line));
    FindIsRFindIffAtMostOne(ToLower(row[0]), '.');
    ToLowerProperties(row[0]);
    ToLowerProperties(row[4]);
  }

  /** The tab-joined line `name ttl class type target`. */
  function RecordLine(name: string, ttl: string, rclass: string, rtype: string, target: string): string {
    JoinTabs([name, ttl, rclass, rtype, target])
  }

  predicate IsField(f: string) {
    |f| > 0 && '\t' !in f
  }

  /** A well-formed five-field record with class IN, type NS and at most one
      dot in its name is accepted, with its name and target lowercased. */
  lemma RecordLineAccepted(name: string, ttl: string, rclass: string, rtype: string, target: string)
    requires IsField(name) && IsField(ttl) && IsField(rclass) && IsField(rtype) && IsField(target)
    requires !IsSpace(name[0]) && name[0] != '#' && !IsSpace(target[|target| - 1])
    requires Count(name, '.') <= 1
    requires ToUpper(rclass) == "IN" && ToUpper(rtype) == "NS"
    ensures ClassifyLine(RecordLine(name, ttl, rclass, rtype, target))
      == Accepted(NsEntry(ToLower(name), ToLower(target)))
  {
    var line := RecordLine(name, ttl, rclass, rtype, target);
    RecordLineSplits(name, ttl, rclass, rtype, target);
    AcceptedIffContributes(line);
  }

  /** Such a record survives `strip()` and splits back into its five fields. */
  lemma RecordLineSplits(name: string, ttl: string, rclass: string, rtype: string, target: string)
    requires IsField(name) && IsField(ttl) && IsField(rclass) && IsField(rtype) && IsField(target)
    requires !IsSpace(name[0]) && !IsSpace(target[|target| - 1])
    ensures var line := RecordLine(name, ttl, rclass, rtype, target);
      Strip(line) == line && |line| > 0 && line[0] == name[0] &&
      SplitTabRuns(line) == [name, ttl, rclass, rtype, target]
  {
    var fields := [name, ttl, rclass, rtype, target];
    var line := JoinTabs(fields);
    JoinTabsPrefix(fields);
    assert line[0] == name[0];
    JoinTabsSuffix(fields);
    assert line[|line| - 1] == target[|target| - 1];
    StripUnchanged(line);
    SplitJoinRoundTrip(fields);
  }

  /** A five-field record whose name has two or more dots is never accepted. */
  lemma DeepNameRejected(line: string)
    ensures var row := SplitTabRuns(Strip(line));
      |row| == 5 && Count(row[0], '.') >= 2 ==> !ClassifyLine(line).Accepted?
  {
    AcceptedIffContributes(line);
  }

  // ---------------------------------------------------------------------
  // Structure of the result

  /** Every TLD maps to a non-empty set, and the nameserver set is exactly
      the union of the TLD sets. */
  ghost predicate WellFormed(z: ZoneMaps) {
    && (forall k :: k in z.tldNs ==> z.tldNs[k] != {})
    && (forall n :: n in z.nsSet <==> exists k :: k in z.tldNs && n in z.tldNs[k])
  }

  /** The pairs the parse records are exactly the entries of accepted lines. */
  ghost predicate Records(z: ZoneMaps, lines: seq<string>) {
    forall k, n :: (k in z.tldNs && n in z.tldNs[k]) <==> AcceptedAt(lines, k, n)
  }

  /** Some line of `lines` is accepted with name `k` and target `n`. */
  ghost predicate AcceptedAt(lines: seq<string>, k: string, n: string) {
    exists i :: 0 <= i < |lines| && ClassifyLine(lines[i]) == Accepted(NsEntry(k, n))
  }

  lemma AddEntryKeepsWellFormed(z: ZoneMaps, e: NsEntry)
    requires WellFormed(z)
    ensures WellFormed(AddEntry(z, e))
    ensures e.tld in AddEntry(z, e).tldNs && e.ns in AddEntry(z, e).tldNs[e.tld]
  {
    var z' := AddEntry(z, e);
    forall n
      ensures n in z'.nsSet <==> exists k :: k in z'.tldNs && n in z'.tldNs[k]
    {
      if n in z'.nsSet {
        if n == e.ns {
          assert e.tld in z'.tldNs && n in z'.tldNs[e.tld];
        } else {
          var k :| k in z.tldNs && n in z.tldNs[k];
          assert k in z'.tldNs && n in z'.tldNs[k];
        }
      }
    }
  }

  /** Parsing from a well-formed state keeps it well-formed. */
  lemma {:induction false} ParseFromKeepsWellFormed(z: ZoneMaps, lines: seq<string>)
    requires WellFormed(z)
    ensures WellFormed(ParseFrom(z, lines))
    decreases |lines|
  {
    if |lines| > 0 {
      if ClassifyLine(lines[0]).Accepted? {
        AddEntryKeepsWellFormed(z, ClassifyLine(lines[0]).entry);
      }
      ParseFromKeepsWellFormed(ParseLine(z, lines[0]), lines[1..]);
    }
  }

  /** Parsing the concatenation of two line sequences is parsing the second
      from the state the first left. */
  lemma {:induction false} ParseFromAppend(z: ZoneMaps, a: seq<string>, b: seq<string>)
    ensures ParseFrom(z, a + b) == ParseFrom(ParseFrom(z, a), b)
    decreases |a|
  {
    if |a| > 0 {
      assert (a + b)[0] == a[0];
      assert (a + b)[1..] == a[1..] + b;
      assert ParseFrom(z, a + b) == ParseFrom(ParseLine(z, a[0]), a[1..] + b);
      ParseFromAppend(ParseLine(z, a[0]), a[1..], b);
    } else {
      assert a + b == b;
    }
  }

  /** A rejected line is noise: inserting it anywhere changes neither
      structure. */
  lemma NoiseIgnored(a: seq<string>, noise: string, b: seq<string>)
    requires !ClassifyLine(noise).Accepted?
    ensures ParseZoneFile(a + [noise] + b) == ParseZoneFile(a + b)
  {
    var z := ParseFrom(Empty, a);
    var tail := [noise] + b;
    assert a + [noise] + b == a + tail;
    ParseFromAppend(Empty, a, tail);
    ParseFromAppend(Empty, a, b);
    assert tail[0] == noise && tail[1..] == b;
    assert ParseFrom(z, tail) == ParseFrom(ParseLine(z, noise), b);
  }

  /** Parsing the lines up to and including one more line. */
  lemma ParseSnoc(lines: seq<string>, line: string)
    ensures ParseZoneFile(lines + [line]) == ParseLine(ParseZoneFile(lines), line)
  {
    ParseFromAppend(Empty, lines, [line]);
  }

  lemma AddEntryPairs(z: ZoneMaps, e: NsEntry, k: string, n: string)
    ensures (k in AddEntry(z, e).tldNs && n in AddEntry(z, e).tldNs[k]) <==>
      ((k in z.tldNs && n in z.tldNs[k]) || (k == e.tld && n == e.ns))
  {
  }

  lemma AcceptedAtSnoc(init: seq<string>, last: string, k: string, n: string)
    ensures AcceptedAt(init + [last], k, n) <==>
      (AcceptedAt(init, k, n) || ClassifyLine(last) == Accepted(NsEntry(k, n)))
  {
    var lines := init + [last];
    if AcceptedAt(lines, k, n) {
      var i :| 0 <= i < |lines| && ClassifyLine(lines[i]) == Accepted(NsEntry(k, n));
      if i < |init| {
        assert lines[i] == init[i];
      }
    }
    if AcceptedAt(init, k, n) {
      var i :| 0 <= i < |init| && ClassifyLine(init[i]) == Accepted(NsEntry(k, n));
      assert lines[i] == init[i];
    }
    assert lines[|init|] == last;
  }

  /** The parse records exactly the name/target pairs of the accepted lines. */
  lemma {:induction false} ParseRecordsAccepted(lines: seq<string>)
    ensures Records(ParseZoneFile(lines), lines)
    decreases |lines|
  {
    if |lines| > 0 {
      var init := lines[..|lines| - 1];
      var last := lines[|lines| - 1];
      assert lines == init + [last];
      ParseRecordsAccepted(init);
      ParseSnoc(init, last);
      var z := ParseZoneFile(init);
      forall k, n
        ensures (k in ParseZoneFile(lines).tldNs && n in ParseZoneFile(lines).tldNs[k]) <==>
          AcceptedAt(lines, k, n)
      {
        AcceptedAtSnoc(init, last, k, n);
      }
    }
  }

  /** `ns_set` holds exactly the targets of the accepted lines, whatever
      their names. */
  lemma ParseNameservers(lines: seq<string>)
    ensures forall n :: n in ParseZoneFile(lines).nsSet <==> exists k :: AcceptedAt(lines, k, n)
  {
    var z := ParseZoneFile(lines);
    ParseRecordsAccepted(lines);
    forall n
      ensures n in z.nsSet <==> exists k :: AcceptedAt(lines, k, n)
    {
      if n in z.nsSet {
        var k :| k in z.tldNs && n in z.tldNs[k];
        assert AcceptedAt(lines, k, n);
      }
      if exists k :: AcceptedAt(lines, k, n) {
        var k :| AcceptedAt(lines, k, n);
        assert k in z.tldNs && n in z.tldNs[k];
      }
    }
  }

  /** No key has two or more dots; keys and nameservers are lowercase. */
  lemma ParseKeysAreTlds(lines: seq<string>)
    ensures forall k :: k in ParseZoneFile(lines).tldNs ==>
      Count(k, '.') <= 1 && IsLowerCase(k)
    ensures forall n :: n in ParseZoneFile(lines).nsSet ==> IsLowerCase(n)
  {
    var z := ParseZoneFile(lines);
    ParseRecordsAccepted(lines);
    forall k | k in z.tldNs
      ensures Count(k, '.') <= 1 && IsLowerCase(k)
    {
      var n :| n in z.tldNs[k];
      var i :| 0 <= i < |lines| && ClassifyLine(lines[i]) == Accepted(NsEntry(k, n));
      AcceptedEntryShape(lines[i]);
    }
    forall n | n in z.nsSet
      ensures IsLowerCase(n)
    {
      var k :| k in z.tldNs && n in z.tldNs[k];
      var i :| 0 <= i < |lines| && ClassifyLine(lines[i]) == Accepted(NsEntry(k, n));
      AcceptedEntryShape(lines[i]);
    }
  }

  /** The root name "." has exactly one dot, so the filter keeps it, and a
      dotless name is kept too; "example.com." is not. */
  lemma DotFilterExamples()
    ensures PassesDotFilter(".")
    ensures PassesDotFilter("com")
    ensures PassesDotFilter("com.")
    ensures !PassesDotFilter("example.com.")
  {
    FindIsRFindIffAtMostOne(".", '.');
    FindIsRFindIffAtMostOne("com", '.');
    FindIsRFindIffAtMostOne("com.", '.');
    FindIsRFindIffAtMostOne("example.com.", '.');
  }

}
