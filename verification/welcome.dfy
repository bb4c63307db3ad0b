/**
 The handlers the `/trivia` actions are routed to, all inherited from the
 welcome-bot plugin: preview and list scan the configured welcome messages;
 set, get and delete work on the per-channel welcome text in the key-value
 store (`executeCommandPreview` ... `executeCommandDeleteWelcome` in
 server/command.go).
 */
module Welcome {
  import opened Options
  import opened Strings
  import opened Host

  // ---------------------------------------------------------------------------
  // Posted texts
  // ---------------------------------------------------------------------------

  function PreviewFailed(team: string, error: string): string {
    "error occurred while processing greeting for team `" + team + "`: `" + error + "`"
  }

  function TeamNotFound(team: string): string {
    "team `" + team + "` has not been found"
  }

  const NoWelcomeMessages: string := "There are no welcome messages defined"
  const ListHeader: string := "Teams for which welcome messages are defined:"

  /** One line per team, each introduced by a newline and a bullet. */
  function Bullets(teams: seq<string>): string
    decreases |teams|
  {
    if teams == [] then "" else "\n * " + teams[0] + Bullets(teams[1..])
  }

  function ChannelLookupFailed(channelId: string, error: string): string {
    "error occurred while checking the type of the chanelId `" + channelId + "`: `" + error + "`"
  }

  const DirectUnsupported: string := "welcome messages are not supported for direct channels"

  function StoreFailed(error: string): string {
    "error occurred while storing the welcome message for the chanel: `" + error + "`"
  }

  const StoredPrefix: string := "stored the welcome message:\n"

  function Stored(message: string): string {
    StoredPrefix + message
  }

  function RetrieveFailed(error: string): string {
    "error occurred while retrieving the welcome message for the chanel: `" + error + "`"
  }

  const NotSetYet: string := "welcome message has not been set yet"

  const ShownPrefix: string := "Welcome message is:\n"

  function Shown(message: string): string {
    ShownPrefix + message
  }

  function DeleteFailed(error: string): string {
    "error occurred while deleting the welcome message for the chanel: `" + error + "`"
  }

  const WelcomeDeleted: string := "welcome message has been deleted"

  // ---------------------------------------------------------------------------
  // Preview
  // ---------------------------------------------------------------------------

  /**
   `previewWelcomeMessage`, whose body is not part of this model: for a team
   name and a welcome message it reports an error's text, or None on success.
   Being a function, it answers alike for every matching part of one message.
   */
  type Previewer = (string, WelcomeMessage) -> Option<string>

  /** Where a scan stands: posts so far, whether some preview succeeded, whether an error ended it. */
  datatype Scan = Scan(posts: seq<string>, found: bool, stopped: bool)

  /**
   What every scan posts: only the team name, save that an error that
   stopped the scan comes last, after at least one name; it posts
   something exactly when a preview ran.
   */
  ghost predicate ScanShape(team: string, s: Scan) {
    && (s.posts != [] <==> s.found || s.stopped)
    && (forall i :: 0 <= i < |s.posts| - 1 ==> s.posts[i] == team)
    && (!s.stopped && s.posts != [] ==> s.posts[|s.posts| - 1] == team)
    && (s.stopped ==> |s.posts| >= 2 && exists e :: s.posts[|s.posts| - 1] == PreviewFailed(team, e))
  }

  /** The inner loop of `executeCommandPreview`: the comma-separated parts of one entry's team name. */
  function ScanParts(team: string, entry: WelcomeMessage, parts: seq<string>, preview: Previewer): (r: Scan)
    ensures ScanShape(team, r)
    decreases |parts|
  {
    if parts == [] then Scan([], false, false)
    else if TrimSpace(parts[0]) != team then ScanParts(team, entry, parts[1..], preview)
    else
      match preview(team, entry)
      case Some(e) => Scan([team, PreviewFailed(team, e)], false, true)
      case None =>
        var rest := ScanParts(team, entry, parts[1..], preview);
        Scan([team] + rest.posts, true, rest.stopped)
  }

  /** The outer loop of `executeCommandPreview`: every configured entry, until an error stops the scan. */
  function ScanEntries(team: string, entries: seq<WelcomeMessage>, preview: Previewer): (r: Scan)
    ensures ScanShape(team, r)
    decreases |entries|
  {
    if entries == [] then Scan([], false, false)
    else
      var head := ScanParts(team, entries[0], Split(entries[0].teamName, ','), preview);
      if head.stopped then head
      else
        var tail := ScanEntries(team, entries[1..], preview);
        ScanShapeAppend(team, head, tail);
        Scan(head.posts + tail.posts, head.found || tail.found, tail.stopped)
  }

  /** A scan that was not stopped, followed by another scan, keeps the shape. */
  lemma ScanShapeAppend(team: string, head: Scan, tail: Scan)
    requires ScanShape(team, head) && !head.stopped && ScanShape(team, tail)
    ensures ScanShape(team, Scan(head.posts + tail.posts, head.found || tail.found, tail.stopped))
  {
    var posts := head.posts + tail.posts;
    if tail.posts != [] {
      assert posts[|posts| - 1] == tail.posts[|tail.posts| - 1];
    }
    forall i | 0 <= i < |posts| - 1 ensures posts[i] == team {
      if i >= |head.posts| {
        assert posts[i] == tail.posts[i - |head.posts|];
      }
    }
  }

  /** An entry names `team` when one of the comma-separated parts of its team name, trimmed, is `team`. */
  predicate Names(entry: WelcomeMessage, team: string) {
    exists p :: p in Split(entry.teamName, ',') && TrimSpace(p) == team
  }

  /** `entry` once for every part of `parts` that names `team`. */
  function PartMatches(team: string, entry: WelcomeMessage, parts: seq<string>): seq<WelcomeMessage>
    decreases |parts|
  {
    if parts == [] then []
    else (if TrimSpace(parts[0]) == team then [entry] else []) + PartMatches(team, entry, parts[1..])
  }

  /** Every matching (entry, part) pair of `entries`, in scan order, as the entry it belongs to. */
  function Matches(team: string, entries: seq<WelcomeMessage>): seq<WelcomeMessage>
    decreases |entries|
  {
    if entries == [] then []
    else PartMatches(team, entries[0], Split(entries[0].teamName, ',')) + Matches(team, entries[1..])
  }

  /**
   The reference preview loop over a flat list of matches: each match posts
   the team name and is previewed; the first error is posted and ends the walk.
   */
  function Walk(team: string, matches: seq<WelcomeMessage>, preview: Previewer): Scan
    decreases |matches|
  {
    if matches == [] then Scan([], false, false)
    else
      match preview(team, matches[0])
      case Some(e) => Scan([team, PreviewFailed(team, e)], false, true)
      case None =>
        var rest := Walk(team, matches[1..], preview);
        Scan([team] + rest.posts, true, rest.stopped)
  }

  /**
   `executeCommandPreview`: the posts of previewing `team`. They are those of
   walking over every matching part in order, followed by the not-found
   notice exactly when nothing matched.
   */
  function Preview(team: string, entries: seq<WelcomeMessage>, preview: Previewer): (posts: seq<string>)
    ensures posts == Walk(team, Matches(team, entries), preview).posts
                     + (if Matches(team, entries) == [] then [TeamNotFound(team)] else [])
  {
    var scan := ScanEntries(team, entries, preview);
    ScanEntriesIsWalk(team, entries, preview);
    WalkFound(team, Matches(team, entries), preview);
    if scan.stopped then scan.posts
    else if !scan.found then scan.posts + [TeamNotFound(team)]
    else scan.posts
  }

  function Repeat(s: string, n: nat): (r: seq<string>)
    ensures |r| == n && forall i :: 0 <= i < n ==> r[i] == s
  {
    seq(n, _ => s)
  }

  lemma {:induction false} WalkAppend(team: string, a: seq<WelcomeMessage>, b: seq<WelcomeMessage>, preview: Previewer)
    ensures Walk(team, a + b, preview) ==
      (var wa := Walk(team, a, preview);
       var wb := Walk(team, b, preview);
       if wa.stopped then wa else Scan(wa.posts + wb.posts, wa.found || wb.found, wb.stopped))
    decreases |a|
  {
    var wb := Walk(team, b, preview);
    if a == [] {
      assert a + b == b;
      assert [] + wb.posts == wb.posts;
    } else {
      var ab := a + b;
      assert ab[0] == a[0];
      assert ab[1..] == a[1..] + b;
      WalkAppend(team, a[1..], b, preview);
      match preview(team, a[0])
      case Some(e) =>
      case None =>
        var wr := Walk(team, a[1..], preview);
        assert Walk(team, ab, preview) == Scan([team] + Walk(team, a[1..] + b, preview).posts, true, Walk(team, a[1..] + b, preview).stopped);
        if !wr.stopped {
          assert [team] + wr.posts + wb.posts == [team] + (wr.posts + wb.posts);
        }
    }
  }

  /** The inner loop of `executeCommandPreview` walks the entry once for every part that names the team. */
  lemma {:induction false} ScanPartsIsWalk(team: string, entry: WelcomeMessage, parts: seq<string>, preview: Previewer)
    ensures ScanParts(team, entry, parts, preview) == Walk(team, PartMatches(team, entry, parts), preview)
    decreases |parts|
  {
    if parts != [] {
      ScanPartsIsWalk(team, entry, parts[1..], preview);
      var rest := PartMatches(team, entry, parts[1..]);
      if TrimSpace(parts[0]) == team {
        assert PartMatches(team, entry, parts) == [entry] + rest;
        assert ([entry] + rest)[1..] == rest;
      } else {
        assert PartMatches(team, entry, parts) == rest;
      }
    }
  }

  /** The nested loops of `executeCommandPreview` walk the flat list of matches in order. */
  lemma {:induction false} ScanEntriesIsWalk(team: string, entries: seq<WelcomeMessage>, preview: Previewer)
    ensures ScanEntries(team, entries, preview) == Walk(team, Matches(team, entries), preview)
    decreases |entries|
  {
    if entries != [] {
      var parts := Split(entries[0].teamName, ',');
      ScanPartsIsWalk(team, entries[0], parts, preview);
      ScanEntriesIsWalk(team, entries[1..], preview);
      WalkAppend(team, PartMatches(team, entries[0], parts), Matches(team, entries[1..]), preview);
    }
  }

  /** A walk that was not stopped found something exactly when there was something to walk. */
  lemma {:induction false} WalkFound(team: string, matches: seq<WelcomeMessage>, preview: Previewer)
    ensures !Walk(team, matches, preview).stopped ==> (Walk(team, matches, preview).found <==> matches != [])
    decreases |matches|
  {
    if matches != [] && preview(team, matches[0]).None? {
      WalkFound(team, matches[1..], preview);
    }
  }

  lemma {:induction false} PartMatchesMembers(team: string, entry: WelcomeMessage, parts: seq<string>, m: WelcomeMessage)
    ensures m in PartMatches(team, entry, parts) <==> m == entry && exists p :: p in parts && TrimSpace(p) == team
    decreases |parts|
  {
    if parts != [] {
      PartMatchesMembers(team, entry, parts[1..], m);
      var rest := PartMatches(team, entry, parts[1..]);
      assert PartMatches(team, entry, parts) == (if TrimSpace(parts[0]) == team then [entry] else []) + rest;
      assert forall p :: p in parts <==> p == parts[0] || p in parts[1..];
    }
  }

  /** The matches are exactly the entries one of whose trimmed, comma-separated parts is the team name. */
  lemma {:induction false} MatchesMembers(team: string, entries: seq<WelcomeMessage>, m: WelcomeMessage)
    ensures m in Matches(team, entries) <==> m in entries && Names(m, team)
    decreases |entries|
  {
    if entries != [] {
      PartMatchesMembers(team, entries[0], Split(entries[0].teamName, ','), m);
      MatchesMembers(team, entries[1..], m);
      assert m in entries <==> m == entries[0] || m in entries[1..];
    }
  }

  /** When every preview succeeds, each match posts the team name once and the walk is not stopped. */
  lemma {:induction false} WalkAllSucceed(team: string, matches: seq<WelcomeMessage>, preview: Previewer)
    requires forall i :: 0 <= i < |matches| ==> preview(team, matches[i]).None?
    ensures Walk(team, matches, preview).posts == Repeat(team, |matches|)
    ensures !Walk(team, matches, preview).stopped
    decreases |matches|
  {
    if matches != [] {
      WalkAllSucceed(team, matches[1..], preview);
      assert [team] + Repeat(team, |matches| - 1) == Repeat(team, |matches|);
    }
  }

  /**
   When the preview of match `k` is the first to fail, the walk posts the team
   name for matches 0..k, then that error, and stops.
   */
  lemma {:induction false} WalkStopsAtFirstError(team: string, matches: seq<WelcomeMessage>, preview: Previewer, k: nat)
    requires k < |matches| && preview(team, matches[k]).Some?
    requires forall i :: 0 <= i < k ==> preview(team, matches[i]).None?
    ensures Walk(team, matches, preview).posts
            == Repeat(team, k + 1) + [PreviewFailed(team, preview(team, matches[k]).value)]
    ensures Walk(team, matches, preview).stopped
    decreases k
  {
    if k > 0 {
      WalkStopsAtFirstError(team, matches[1..], preview, k - 1);
      assert matches[1..][k - 1] == matches[k];
      assert [team] + Repeat(team, k) == Repeat(team, k + 1);
    }
  }

  /** Every post of a walk is the team name or a preview error. */
  lemma {:induction false} WalkPosts(team: string, matches: seq<WelcomeMessage>, preview: Previewer)
    ensures forall p :: p in Walk(team, matches, preview).posts ==>
      p == team || exists e :: p == PreviewFailed(team, e)
    decreases |matches|
  {
    if matches != [] && preview(team, matches[0]).None? {
      WalkPosts(team, matches[1..], preview);
    }
  }

  /** The not-found notice is posted exactly when no part of any entry names the team. */
  lemma PreviewNotFound(team: string, entries: seq<WelcomeMessage>, preview: Previewer)
    ensures TeamNotFound(team) in Preview(team, entries, preview) <==> Matches(team, entries) == []
  {
    var w := Walk(team, Matches(team, entries), preview);
    WalkPosts(team, Matches(team, entries), preview);
    var nf := TeamNotFound(team);
    assert nf != team by {
      assert |nf| > |team|;
    }
    forall e ensures nf != PreviewFailed(team, e) {
      assert |PreviewFailed(team, e)| > |nf|;
    }
    assert nf !in w.posts;
  }

  /** A name with no surrounding white space and no comma is its own only part, and trims to itself. */
  lemma PlainName(name: string)
    requires IsTrimmed(name) && ',' !in name
    ensures Split(name, ',') == [name]
    ensures TrimSpace(name) == name
  {
    SplitOfPiece(name, ',');
    TrimSpaceOf("", name, "");
    assert "" + name + "" == name;
  }

  /**
   The preview scenario of two configured entries, `a,b` and `c`, with plain
   names: previewing `b` matches only the first entry and, when its preview
   succeeds, posts the name once; previewing a name `z` that none of them
   is matches nothing and posts only the not-found notice.
   */
  lemma PreviewScenario(a: string, b: string, c: string, z: string, preview: Previewer)
    requires IsTrimmed(a) && IsTrimmed(b) && IsTrimmed(c)
    requires ',' !in a && ',' !in b && ',' !in c
    requires a != b && c != b && z != a && z != b && z != c
    requires preview(b, WelcomeMessage(Join([a, b], ","))).None?
    ensures var entries := [WelcomeMessage(Join([a, b], ",")), WelcomeMessage(c)];
      && Matches(b, entries) == [entries[0]]
      && Preview(b, entries, preview) == [b]
      && Preview(z, entries, preview) == [TeamNotFound(z)]
  {
    var entries := [WelcomeMessage(Join([a, b], ",")), WelcomeMessage(c)];
    ScenarioParts(a, b, c);
    ScenarioMatches(b, a, b, c, entries[0], entries[1]);
    ScenarioMatches(z, a, b, c, entries[0], entries[1]);
    PreviewOfSingleMatch(b, entries, entries[0], preview);
    PreviewOfNoMatch(z, entries, preview);
  }

  /** Which entries of two plain-named entries a team matches: the first for its second part `b`, none for a name outside `a, b, c`. */
  lemma ScenarioMatches(team: string, a: string, b: string, c: string, first: WelcomeMessage, second: WelcomeMessage)
    requires TrimSpace(a) == a && TrimSpace(b) == b && TrimSpace(c) == c
    requires Split(first.teamName, ',') == [a, b] && Split(second.teamName, ',') == [c]
    requires a != b && c != b
    ensures team == b ==> Matches(team, [first, second]) == [first]
    ensures team != a && team != b && team != c ==> Matches(team, [first, second]) == []
  {
    MatchesOfParts(team, first, second, a, b, c);
    if team == b {
      assert Matches(team, [first, second]) == [] + [first] + [];
    } else if team != a && team != c {
      assert Matches(team, [first, second]) == [] + [] + [];
    }
  }

  /** A team matched by exactly one entry whose preview succeeds: its name is posted once. */
  lemma PreviewOfSingleMatch(team: string, entries: seq<WelcomeMessage>, only: WelcomeMessage, preview: Previewer)
    requires Matches(team, entries) == [only] && preview(team, only).None?
    ensures Preview(team, entries, preview) == [team]
  {
    assert [only][1..] == [];
    assert Walk(team, [only], preview).posts == [team] + [];
  }

  /** A team matched by no entry: only the not-found notice is posted. */
  lemma PreviewOfNoMatch(team: string, entries: seq<WelcomeMessage>, preview: Previewer)
    requires Matches(team, entries) == []
    ensures Preview(team, entries, preview) == [TeamNotFound(team)]
  {
  }

  /** The parts of the scenario's team names, each its own trimmed form. */
  lemma ScenarioParts(a: string, b: string, c: string)
    requires IsTrimmed(a) && IsTrimmed(b) && IsTrimmed(c)
    requires ',' !in a && ',' !in b && ',' !in c
    ensures Split(Join([a, b], ","), ',') == [a, b] && Split(c, ',') == [c]
    ensures TrimSpace(a) == a && TrimSpace(b) == b && TrimSpace(c) == c
  {
    PlainName(a);
    PlainName(b);
    PlainName(c);
    SplitJoin([a, b], ',');
  }

  /** The matches of two entries whose team names have the plain parts `a, b` and `c`. */
  lemma MatchesOfParts(team: string, first: WelcomeMessage, second: WelcomeMessage, a: string, b: string, c: string)
    requires TrimSpace(a) == a && TrimSpace(b) == b && TrimSpace(c) == c
    requires Split(first.teamName, ',') == [a, b] && Split(second.teamName, ',') == [c]
    ensures Matches(team, [first, second])
            == (if a == team then [first] else []) + (if b == team then [first] else [])
               + (if c == team then [second] else [])
  {
    MatchesOfTwo(team, first, second);
    PartMatchesOfTwo(team, first, a, b);
    PartMatchesOfOne(team, second, c);
  }

  lemma PartMatchesOfOne(team: string, entry: WelcomeMessage, p: string)
    ensures PartMatches(team, entry, [p]) == if TrimSpace(p) == team then [entry] else []
  {
    assert [p][1..] == [];
  }

  lemma PartMatchesOfTwo(team: string, entry: WelcomeMessage, p: string, q: string)
    ensures PartMatches(team, entry, [p, q])
            == (if TrimSpace(p) == team then [entry] else []) + (if TrimSpace(q) == team then [entry] else [])
  {
    assert [p, q][1..] == [q];
    PartMatchesOfOne(team, entry, q);
  }

  lemma MatchesOfTwo(team: string, e: WelcomeMessage, f: WelcomeMessage)
    ensures Matches(team, [e, f])
            == PartMatches(team, e, Split(e.teamName, ',')) + PartMatches(team, f, Split(f.teamName, ','))
  {
    var pf := PartMatches(team, f, Split(f.teamName, ','));
    assert [e, f][1..] == [f];
    assert [f][1..] == [];
    assert Matches(team, []) == [];
    assert Matches(team, [f]) == pf + [];
    assert pf + [] == pf;
    assert Matches(team, [e, f]) == PartMatches(team, e, Split(e.teamName, ',')) + Matches(team, [f]);
  }

  // ---------------------------------------------------------------------------
  // List
  // ---------------------------------------------------------------------------

  predicate NoDuplicates(s: seq<string>) {
    forall i, j :: 0 <= i < j < |s| ==> s[i] != s[j]
  }

  function TeamNames(entries: seq<WelcomeMessage>): (names: seq<string>)
    ensures |names| == |entries| && forall i :: 0 <= i < |entries| ==> names[i] == entries[i].teamName
  {
    seq(|entries|, i requires 0 <= i < |entries| => entries[i].teamName)
  }

  /** The elements of `s` with repeats removed, each kept at its first occurrence. */
  function Distinct(s: seq<string>): (r: seq<string>)
    ensures NoDuplicates(r)
    ensures forall x :: x in r <==> x in s
    decreases |s|
  {
    if s == [] then []
    else
      var init := Distinct(s[..|s| - 1]);
      var last := s[|s| - 1];
      assert s == s[..|s| - 1] + [last];
      if last in init then init else init + [last]
  }

  /**
   `executeCommandList`: with no entries, the notice that none is defined;
   otherwise the header followed by one bullet per distinct whole team name,
   each exactly once, in some order.
   */
  function List(entries: seq<WelcomeMessage>): (post: string)
    ensures entries == [] ==> post == NoWelcomeMessages
    ensures entries != [] ==> exists teams :: post == ListHeader + Bullets(teams) && NoDuplicates(teams)
                                    && forall t :: t in teams <==> exists e :: e in entries && e.teamName == t
  {
    if |entries| == 0 then NoWelcomeMessages
    else
      var names := TeamNames(entries);
      var teams := Distinct(names);
      assert forall t :: t in names <==> exists e :: e in entries && e.teamName == t by {
        forall t ensures t in names <==> exists e :: e in entries && e.teamName == t {
          if t in names {
            var i :| 0 <= i < |names| && names[i] == t;
            assert entries[i] in entries;
          }
        }
      }
      ListHeader + Bullets(teams)
  }

  // ---------------------------------------------------------------------------
  // Set, get and delete
  // ---------------------------------------------------------------------------

  /** The word after which `executeCommandSetWelcome` reads the welcome text. */
  const WelcomeMarker: string := "set_channel_welcome"

  /** `i` is the first position of `sep` in `s`. */
  predicate FirstAt(s: string, sep: string, i: nat) {
    OccursAt(s, sep, i) && forall j: nat :: j < i ==> !OccursAt(s, sep, j)
  }

  /**
   `strings.SplitN(command, "set_channel_welcome", 2)[1]`: the text after
   the first occurrence of the marker, or None where the Go code would index
   past the end of the split.
   */
  function TextAfterMarker(command: string): (r: Option<string>)
    ensures r.None? <==> !Contains(command, WelcomeMarker)
    ensures r.Some? ==> exists i: nat :: FirstAt(command, WelcomeMarker, i) && r.value == command[i + |WelcomeMarker|..]
  {
    var parts := SplitN2(command, WelcomeMarker);
    if |parts| < 2 then None
    else
      assert FirstAt(command, WelcomeMarker, |parts[0]|);
      assert parts[1] == command[|parts[0]| + |WelcomeMarker|..];
      Some(parts[1])
  }

  /**
   `executeCommandSetWelcome`. After a successful channel lookup on a
   non-direct channel, a line without `set_channel_welcome` panics; otherwise
   the trimmed text after its first occurrence is written under the
   channel's key. A completed run posts one message and touches no other key.
   */
  function SetWelcome(host: Host, args: CommandArgs): (r: Execution)
    ensures r.Crashed? <==> host.channel.Found? && host.channel.channelType != Direct
                            && !Contains(args.command, WelcomeMarker)
    ensures r.Crashed? ==> r.fault == MissingWelcomeMarker && r.calls == [GetChannel(args.channelId)]
    ensures r.Completed? && host.channel == Found(Direct) ==> r.effect.posts == [DirectUnsupported]
    ensures r.Completed? && host.channel.Found? && host.channel.channelType != Direct && host.setError.None? ==>
              var message := TrimSpace(TextAfterMarker(args.command).value);
              && r.effect.store == host.store[WelcomeKey(args.channelId) := message]
              && r.effect.posts == [Stored(message)]
              && r.effect.calls == [GetChannel(args.channelId), KVSet(WelcomeKey(args.channelId), message)]
  {
    var lookup := [GetChannel(args.channelId)];
    match host.channel
    case LookupFailed(e) =>
      Completed(Effect([ChannelLookupFailed(args.channelId, e)], lookup, host.store))
    case Found(kind) =>
      if kind == Direct then Completed(Effect([DirectUnsupported], lookup, host.store))
      else
        match TextAfterMarker(args.command)
        case None => Crashed(MissingWelcomeMarker, lookup)
        case Some(after) =>
          var message := TrimSpace(after);
          var key := WelcomeKey(args.channelId);
          var calls := lookup + [KVSet(key, message)];
          match host.setError
          case Some(e) => Completed(Effect([StoreFailed(e)], calls, host.store))
          case None => Completed(Effect([Stored(message)], calls, host.store[key := message]))
  }

  /** Set looks the channel up first, and its only other call is a write of the channel's key. */
  lemma SetWelcomeCalls(host: Host, args: CommandArgs)
    ensures var r := SetWelcome(host, args);
      var calls := if r.Completed? then r.effect.calls else r.calls;
      && 1 <= |calls| <= 2 && calls[0] == GetChannel(args.channelId)
      && (|calls| == 2 ==> calls[1].KVSet? && calls[1].key == WelcomeKey(args.channelId))
  {
  }

  /**
   Set posts exactly one message whenever it completes, changes no key but
   the channel's own, and changes nothing at all when the lookup fails, the
   channel is direct, or the store reports an error.
   */
  lemma SetWelcomeFrame(host: Host, args: CommandArgs)
    ensures var r := SetWelcome(host, args);
      r.Completed? ==>
        && |r.effect.posts| == 1
        && SameExceptAt(host.store, r.effect.store, WelcomeKey(args.channelId))
        && (host.channel.LookupFailed? || host.channel == Found(Direct) || host.setError.Some? ==> r.effect.store == host.store)
  {
    var key := WelcomeKey(args.channelId);
    var r := SetWelcome(host, args);
    if r.Completed? && host.channel.Found? && host.channel.channelType != Direct {
      var after := TextAfterMarker(args.command);
      if host.setError.None? {
        assert r.effect.store == host.store[key := TrimSpace(after.value)];
      } else {
        assert r.effect.store == host.store;
      }
    }
  }

  /**
   `executeCommandGetWelcome`: reads the channel's key once and never
   changes the store; it posts exactly one message, which shows the stored
   text as it is when there is one.
   */
  function GetWelcome(host: Host, args: CommandArgs): (e: Effect)
    ensures e.store == host.store
    ensures e.calls == [KVGet(WelcomeKey(args.channelId))]
    ensures |e.posts| == 1
    ensures host.getError.None? ==> (e.posts == [NotSetYet] <==> WelcomeKey(args.channelId) !in host.store)
    ensures host.getError.None? && WelcomeKey(args.channelId) in host.store ==>
              e.posts == [Shown(host.store[WelcomeKey(args.channelId)])]
  {
    var key := WelcomeKey(args.channelId);
    var calls := [KVGet(key)];
    match host.getError
    case Some(err) => Effect([RetrieveFailed(err)], calls, host.store)
    case None =>
      if key !in host.store then Effect([NotSetYet], calls, host.store)
      else
        assert Shown(host.store[key])[0] == 'W' && NotSetYet[0] == 'w';
        Effect([Shown(host.store[key])], calls, host.store)
  }

  /**
   `executeCommandDeleteWelcome`: reads the channel's key first and calls
   `KVDelete` only when a message is there. It removes that key and no
   other, and reports the deletion exactly when it removed something.
   */
  function DeleteWelcome(host: Host, args: CommandArgs): (e: Effect)
    ensures e.store == host.store || e.store == host.store - {WelcomeKey(args.channelId)}
    ensures e.calls == [KVGet(WelcomeKey(args.channelId))] ||
            e.calls == [KVGet(WelcomeKey(args.channelId)), KVDelete(WelcomeKey(args.channelId))]
    ensures KVDelete(WelcomeKey(args.channelId)) in e.calls <==>
              host.getError.None? && WelcomeKey(args.channelId) in host.store
    ensures |e.posts| == 1
    ensures e.posts == [WelcomeDeleted] <==> WelcomeKey(args.channelId) in host.store && WelcomeKey(args.channelId) !in e.store
    ensures host.getError.None? && WelcomeKey(args.channelId) !in host.store ==> e.posts == [NotSetYet]
  {
    var key := WelcomeKey(args.channelId);
    var read := [KVGet(key)];
    match host.getError
    case Some(err) =>
      assert |RetrieveFailed(err)| > |WelcomeDeleted|;
      Effect([RetrieveFailed(err)], read, host.store)
    case None =>
      if key !in host.store then Effect([NotSetYet], read, host.store)
      else
        var calls := read + [KVDelete(key)];
        match host.deleteError
        case Some(err) =>
          assert |DeleteFailed(err)| > |WelcomeDeleted|;
          Effect([DeleteFailed(err)], calls, host.store)
        case None => Effect([WelcomeDeleted], calls, host.store - {key})
  }

  // ---------------------------------------------------------------------------
  // Store round trips
  // ---------------------------------------------------------------------------

  /** A host on which the channel lookup finds a non-direct channel and no store call fails. */
  predicate Healthy(host: Host) {
    && host.channel.Found? && host.channel.channelType != Direct
    && host.getError.None? && host.setError.None? && host.deleteError.None?
  }

  /** Round trip: the text a successful set reports storing is the text a later get shows. */
  lemma SetThenGet(host: Host, args: CommandArgs)
    requires Healthy(host) && Contains(args.command, WelcomeMarker)
    ensures SetWelcome(host, args).Completed?
    ensures exists v :: SetWelcome(host, args).effect.posts == [Stored(v)]
                     && GetWelcome(host.(store := SetWelcome(host, args).effect.store), args).posts == [Shown(v)]
  {
    var v := TrimSpace(TextAfterMarker(args.command).value);
    assert SetWelcome(host, args).effect.posts == [Stored(v)];
  }

  /** The store after a successful set on a healthy host. */
  lemma SetStores(host: Host, args: CommandArgs)
    requires Healthy(host) && Contains(args.command, WelcomeMarker)
    ensures SetWelcome(host, args).Completed?
    ensures SetWelcome(host, args).effect.store
              == host.store[WelcomeKey(args.channelId) := TrimSpace(TextAfterMarker(args.command).value)]
  {
  }

  /** Last write wins: setting twice on one channel stores what setting only the second time stores. */
  lemma SetOverwrites(host: Host, first: CommandArgs, second: CommandArgs)
    requires Healthy(host) && first.channelId == second.channelId
    requires Contains(first.command, WelcomeMarker) && Contains(second.command, WelcomeMarker)
    ensures SetWelcome(host.(store := SetWelcome(host, first).effect.store), second).Completed?
    ensures SetWelcome(host.(store := SetWelcome(host, first).effect.store), second).effect.store
              == SetWelcome(host, second).effect.store
  {
    var once := SetWelcome(host, first).effect.store;
    SetStores(host, first);
    SetStores(host.(store := once), second);
    SetStores(host, second);
    var key := WelcomeKey(second.channelId);
    var message := TrimSpace(TextAfterMarker(second.command).value);
    var later := host.(store := once);
    assert later.store == once;
    assert SetWelcome(later, second).effect.store == once[key := message];
    UpdateTwice(host.store, key, TrimSpace(TextAfterMarker(first.command).value), message);
  }

  /** A second update of one key hides the first. */
  lemma UpdateTwice(m: map<string, string>, key: string, first: string, second: string)
    ensures m[key := first][key := second] == m[key := second]
  {
  }

  /** Deleting after a successful set removes exactly that key, and a later get reports nothing set. */
  lemma SetThenDelete(host: Host, args: CommandArgs)
    requires Healthy(host) && Contains(args.command, WelcomeMarker)
    ensures var stored := SetWelcome(host, args).effect.store;
            var deleted := DeleteWelcome(host.(store := stored), args);
            && deleted.posts == [WelcomeDeleted]
            && deleted.store == host.store - {WelcomeKey(args.channelId)}
            && GetWelcome(host.(store := deleted.store), args).posts == [NotSetYet]
  {
    var key := WelcomeKey(args.channelId);
    SetStores(host, args);
    var stored := SetWelcome(host, args).effect.store;
    var later := host.(store := stored);
    assert later.store == stored && key in stored;
    DeleteStored(later, args);
    UpdateThenRemove(host.store, key, TrimSpace(TextAfterMarker(args.command).value));
  }

  /** Removing a key hides any update of it. */
  lemma UpdateThenRemove(m: map<string, string>, key: string, value: string)
    ensures m[key := value] - {key} == m - {key}
  {
  }

  /** Deleting a message that is there, on a store that reports no error, removes its key and says so. */
  lemma DeleteStored(host: Host, args: CommandArgs)
    requires host.getError.None? && host.deleteError.None? && WelcomeKey(args.channelId) in host.store
    ensures DeleteWelcome(host, args).posts == [WelcomeDeleted]
    ensures DeleteWelcome(host, args).store == host.store - {WelcomeKey(args.channelId)}
  {
  }

  /**
   Every failing host call of set ends it: the error's text is the one post,
   no call follows the failing one, and the store is left as it was.
   */
  lemma SetErrorsStop(host: Host, args: CommandArgs)
    ensures host.channel.LookupFailed? ==>
              SetWelcome(host, args) == Completed(Effect([ChannelLookupFailed(args.channelId, host.channel.error)],
                                                         [GetChannel(args.channelId)], host.store))
    ensures host.channel.Found? && host.channel.channelType != Direct && host.setError.Some?
            && Contains(args.command, WelcomeMarker) ==>
              && SetWelcome(host, args).Completed?
              && SetWelcome(host, args).effect.posts == [StoreFailed(host.setError.value)]
              && SetWelcome(host, args).effect.store == host.store
  {
  }

  /**
   Every failing store call of get and delete ends it: the error's text is
   the one post, no call follows the failing one, and the store is left as it was.
   */
  lemma ReadErrorsStop(host: Host, args: CommandArgs)
    ensures host.getError.Some? ==>
              && GetWelcome(host, args).posts == [RetrieveFailed(host.getError.value)]
              && DeleteWelcome(host, args)
                   == Effect([RetrieveFailed(host.getError.value)], [KVGet(WelcomeKey(args.channelId))], host.store)
    ensures host.getError.None? && WelcomeKey(args.channelId) in host.store && host.deleteError.Some? ==>
              DeleteWelcome(host, args).posts == [DeleteFailed(host.deleteError.value)]
              && DeleteWelcome(host, args).store == host.store
  {
  }
}
