/**
 One update cycle as a transaction on the file system: download a bundle to a temp file,
 extract its first .mmdb entry to another, let the opener accept it, rename it over the
 target.  Every step may fail.  The network, the archive decoder and the opener are foreign;
 what they do in a cycle is the cycle's `Weather`.  Panics are outside this model.
 */
module Updater {
  import opened Wrappers
  import opened GeoipProtocol
  import opened GeoipHandler

  type Path = string
  type Files = map<Path, Bytes>

  const MAX_BYTES: nat := 200 * 1024 * 1024

  // `broken` means reading fails after `data`.
  datatype Entry = Entry(name: string, regular: bool, data: Bytes, broken: bool)

  // A gzip'd tar as its reader sees it, up to where the walk ends: in EOF or in an error, which
  // makes no difference, because neither has found an entry.
  datatype Archive = NotGzip | Tar(entries: seq<Entry>)

  datatype Reply = NoAnswer | NotModified | Refused | Body(content: Bytes, breaks: bool)

  // What happens to one temp file: its random name, and which of its steps work.
  datatype Temp = Temp(name: Path, created: bool, spoilt: Option<Bytes>, closes: bool, removable: bool)

  datatype Weather = Weather(
    dirReady: bool,
    reply: Reply,
    bundle: Temp,
    reopens: bool,
    decode: Bytes -> Archive,
    mmdb: Temp,
    opens: Bytes -> bool,
    renames: bool,
    closeFails: bool)

  datatype Outcome = NoTargetDir | DownloadFailed | UpToDate | ExtractFailed | VerifyFailed | RenameFailed | Updated

  // The first 200 MiB.
  function Capped(b: Bytes): (r: Bytes)
    ensures r <= b && |r| == Min(|b|, 209_715_200)
  {
    if |b| <= MAX_BYTES then b else b[..MAX_BYTES]
  }

  // ---- names of archive entries -------------------------------------------------------

  function TrimSlashes(s: string): string {
    if s != "" && s[|s| - 1] == '/' then TrimSlashes(s[..|s| - 1]) else s
  }

  // What follows the last slash.
  function AfterSlash(s: string): string {
    if s == "" || s[|s| - 1] == '/' then "" else AfterSlash(s[..|s| - 1]) + [s[|s| - 1]]
  }

  // The last element of a slash-separated path.
  function Base(name: string): string {
    if name == "" then "."
    else if TrimSlashes(name) == "" then "/"
    else AfterSlash(TrimSlashes(name))
  }

  function ToLower(s: string): (r: string)
    ensures |r| == |s|
  {
    seq(|s|, i requires 0 <= i < |s| => if 'A' <= s[i] <= 'Z' then s[i] - 'A' + 'a' else s[i])
  }

  predicate HasSuffix(s: string, suffix: string) {
    |suffix| <= |s| && s[|s| - |suffix|..] == suffix
  }

  predicate IsMmdbName(name: string) {
    HasSuffix(ToLower(Base(name)), ".mmdb")
  }

  lemma {:induction false} AfterSlashIsSuffix(s: string)
    ensures |AfterSlash(s)| <= |s|
    ensures s[|s| - |AfterSlash(s)|..] == AfterSlash(s)
    ensures |AfterSlash(s)| < |s| ==> s[|s| - |AfterSlash(s)| - 1] == '/'
  {
    if s != "" && s[|s| - 1] != '/' {
      var t, r, c := s[..|s| - 1], AfterSlash(s[..|s| - 1]), s[|s| - 1];
      AfterSlashIsSuffix(t);
      assert AfterSlash(s) == r + [c] && s == t + [c];
      assert s[|s| - |AfterSlash(s)|..] == t[|t| - |r|..] + [c];
    }
  }

  // A suffix without a slash is a suffix of the last element.
  lemma SuffixOfLast(s: string, last: string, suffix: string)
    requires |last| <= |s| && s[|s| - |last|..] == last
    requires |last| < |s| ==> s[|s| - |last| - 1] == '/'
    requires '/' !in suffix
    ensures HasSuffix(s, suffix) <==> HasSuffix(last, suffix)
  {
    if |suffix| <= |last| {
      assert last[|last| - |suffix|..] == s[|s| - |suffix|..];
    } else if |suffix| <= |s| {
      assert s[|s| - |suffix|..][|suffix| - |last| - 1] == '/';
    }
  }

  // The directories of an entry do not matter: its name ends in .mmdb, in any case, or it does not.
  lemma MmdbNameIsSuffix(name: string)
    ensures IsMmdbName(name) <==> HasSuffix(ToLower(TrimSlashes(name)), ".mmdb")
  {
    var s := TrimSlashes(name);
    if s != "" {
      var b := AfterSlash(s);
      AfterSlashIsSuffix(s);
      assert ToLower(s)[|s| - |b|..] == ToLower(b);
      SuffixOfLast(ToLower(s), ToLower(b), ".mmdb");
    }
  }

  predicate IsLetter(c: char, upper: char, lower: char) {
    c == upper || c == lower
  }

  lemma {:induction false} TrimmedSlashes(s: string)
    ensures var t := TrimSlashes(s);
            && t <= s && (t != "" ==> t[|t| - 1] != '/')
            && forall i :: |t| <= i < |s| ==> s[i] == '/'
  {
    if s != "" && s[|s| - 1] == '/' {
      TrimmedSlashes(s[..|s| - 1]);
    }
  }

  lemma LowerLetter(s: string, i: nat)
    requires i < |s|
    ensures ToLower(s)[i] == 'm' <==> IsLetter(s[i], 'M', 'm')
    ensures ToLower(s)[i] == 'd' <==> IsLetter(s[i], 'D', 'd')
    ensures ToLower(s)[i] == 'b' <==> IsLetter(s[i], 'B', 'b')
    ensures ToLower(s)[i] == '.' <==> s[i] == '.'
  {
  }

  // The characters from k on are .mmdb in any case, then nothing but slashes.
  predicate MmdbFrom(name: string, k: nat) {
    && k + 5 <= |name|
    && name[k] == '.' && IsLetter(name[k + 1], 'M', 'm') && IsLetter(name[k + 2], 'M', 'm')
    && IsLetter(name[k + 3], 'D', 'd') && IsLetter(name[k + 4], 'B', 'b')
    && forall i :: k + 5 <= i < |name| ==> name[i] == '/'
  }

  lemma SuffixByLetters(s: string)
    ensures HasSuffix(ToLower(s), ".mmdb") <==> |s| >= 5 && MmdbFrom(s, |s| - 5)
  {
    if |s| >= 5 {
      var n, l := |s|, ToLower(s);
      LowerLetter(s, n - 5);
      LowerLetter(s, n - 4);
      LowerLetter(s, n - 3);
      LowerLetter(s, n - 2);
      LowerLetter(s, n - 1);
      hide ToLower;
      assert l[n - 5..] == [l[n - 5], l[n - 4], l[n - 3], l[n - 2], l[n - 1]];
    }
  }

  // A name is accepted exactly when it spells .mmdb, in any case, before its trailing slashes.
  lemma MmdbNameSpelled(name: string)
    ensures IsMmdbName(name) <==> exists k: nat :: MmdbFrom(name, k)
  {
    var t := TrimSlashes(name);
    MmdbNameIsSuffix(name);
    TrimmedSlashes(name);
    SuffixByLetters(t);
    hide IsMmdbName, TrimSlashes, HasSuffix, ToLower;
    if |t| >= 5 && MmdbFrom(t, |t| - 5) {
      assert MmdbFrom(name, |t| - 5);
    }
    if k: nat :| MmdbFrom(name, k) {
      assert |t| > k + 4 by { assert name[k + 4] != '/'; }
      assert |t| > 0 ==> t[|t| - 1] == name[|t| - 1];
      assert MmdbFrom(t, k);
    }
  }

  // ---- what a cycle delivers ----------------------------------------------------------

  // Entry i is the one extract picks.
  ghost predicate IsPick(es: seq<Entry>, i: int) {
    && 0 <= i < |es|
    && es[i].regular && IsMmdbName(es[i].name)
    && forall j :: 0 <= j < i ==> !(es[j].regular && IsMmdbName(es[j].name))
  }

  // Copying stops at the cap, so an entry that breaks later is read without an error.
  predicate Readable(e: Entry) {
    !e.broken || |e.data| >= MAX_BYTES
  }

  // d is the first regular .mmdb entry of the archive, cut at the cap.
  ghost predicate FirstMmdb(a: Archive, d: Bytes) {
    a.Tar? && exists i :: IsPick(a.entries, i) && Readable(a.entries[i]) && d == Capped(a.entries[i].data)
  }

  predicate Writable(t: Temp) {
    t.created && t.spoilt == None && t.closes
  }

  predicate Fetched(w: Weather) {
    w.reply.Body? && !w.reply.breaks && |w.reply.content| < MAX_BYTES && Writable(w.bundle)
  }

  // The cycle brings the bytes d into place.
  ghost predicate Delivers(w: Weather, d: Bytes) {
    && w.dirReady && Fetched(w)
    && w.reopens && FirstMmdb(w.decode(w.reply.content), d) && Writable(w.mmdb)
    && w.opens(d)
    && w.renames
  }

  // The cycle gets as far as an opener that accepts the extracted file.
  ghost predicate OpensOne(w: Weather) {
    && w.dirReady && Fetched(w) && w.reopens && Writable(w.mmdb)
    && exists d :: FirstMmdb(w.decode(w.reply.content), d) && w.opens(d)
  }

  lemma FirstMmdbIsOne(a: Archive, d: Bytes, d': Bytes)
    requires FirstMmdb(a, d) && FirstMmdb(a, d')
    ensures d == d'
  {
    var i :| IsPick(a.entries, i) && d == Capped(a.entries[i].data);
    var j :| IsPick(a.entries, j) && d' == Capped(a.entries[j].data);
    assert !(i < j) && !(j < i);
  }

  // Temp names are random and new: not in the directory, and not each other.
  predicate FreshNames(w: Weather, files: Files) {
    w.bundle.name !in files && w.mmdb.name !in files && w.bundle.name != w.mmdb.name
  }

  // What is at a path, if anything.
  function At(files: Files, p: Path): Option<Bytes> {
    if p in files then Some(files[p]) else None
  }

  function TempNames(w: Weather): set<Path> {
    {w.bundle.name, w.mmdb.name}
  }

  // Where a temp file may be left behind: its path, when its removal fails.
  function Left(t: Temp): set<Path> {
    if t.removable then {} else {t.name}
  }

  function Stuck(w: Weather): set<Path> {
    Left(w.bundle) + Left(w.mmdb)
  }

  // What the cycle brings into place, if anything.
  ghost function Delivery(w: Weather): (r: Option<Bytes>)
    ensures r.Some? ==> Delivers(w, r.value)
    ensures r.None? ==> forall d :: !Delivers(w, d)
  {
    if d :| Delivers(w, d) then Some(d) else None
  }

  // Spelled out: which bytes a cycle delivers, and when it delivers none.
  lemma DeliveryMeans(w: Weather, d: Bytes)
    ensures Delivery(w) == Some(d) <==>
            && w.dirReady
            && w.reply.Body? && !w.reply.breaks && |w.reply.content| < 209_715_200
            && w.bundle.created && w.bundle.spoilt.None? && w.bundle.closes && w.reopens
            && (var a := w.decode(w.reply.content);
                && a.Tar?
                && exists i ::
                     && 0 <= i < |a.entries| && a.entries[i].regular && IsMmdbName(a.entries[i].name)
                     && (forall j :: 0 <= j < i ==> !(a.entries[j].regular && IsMmdbName(a.entries[j].name)))
                     && (a.entries[i].broken ==> |a.entries[i].data| >= 209_715_200)
                     && d == Capped(a.entries[i].data))
            && w.mmdb.created && w.mmdb.spoilt.None? && w.mmdb.closes
            && w.opens(d) && w.renames
  {
    assert Delivery(w) == Some(d) <==> Delivers(w, d) by { DeliversOne(w, d); }
    hide Delivery, IsMmdbName, Capped;
  }

  // A lookup is opened exactly when the cycle would deliver if only the rename worked.
  lemma OpensUnlessRenameFails(w: Weather)
    ensures OpensOne(w) <==> Delivery(w.(renames := true)).Some?
  {
    var w' := w.(renames := true);
    if OpensOne(w) {
      var d :| FirstMmdb(w.decode(w.reply.content), d) && w.opens(d);
      assert Delivers(w', d);
    }
  }

  lemma DeliversOne(w: Weather, d: Bytes)
    ensures Delivery(w) == Some(d) <==> Delivers(w, d)
  {
    if Delivers(w, d) {
      FirstMmdbIsOne(w.decode(w.reply.content), d, Delivery(w).value);
    }
  }

  lemma DeliveryIs(w: Weather, d: Bytes)
    requires w.reply.Body? && FirstMmdb(w.decode(w.reply.content), d)
    ensures w.dirReady && Fetched(w) && w.reopens && Writable(w.mmdb) ==>
              Delivery(w) == (if w.opens(d) && w.renames then Some(d) else None) && (OpensOne(w) <==> w.opens(d))
  {
    forall d' | FirstMmdb(w.decode(w.reply.content), d')
      ensures d' == d
    {
      FirstMmdbIsOne(w.decode(w.reply.content), d, d');
    }
    if w.dirReady && Fetched(w) && w.reopens && Writable(w.mmdb) && w.opens(d) && w.renames {
      assert Delivers(w, d);
    }
  }

  // The files a cycle leaves when its removals succeed.  Should a temp file have been given the
  // target's own name, the deferred removal takes the delivered file away again.
  ghost function AfterTick(files: Files, target: Path, w: Weather): Files {
    match Delivery(w)
    case None => files
    case Some(d) => if target in TempNames(w) then files - {target} else files[target := d]
  }

  // One of the deferred removals takes the target away.
  predicate TakenAway(w: Weather, target: Path) {
    || (target == w.bundle.name && w.bundle.removable)
    || (target == w.mmdb.name && w.mmdb.removable)
  }

  // A name clash: a first download into a directory without the target, whose name the second
  // temp file gets.  It delivers, and leaves no file.
  lemma NamesClash() returns (files: Files, target: Path, w: Weather)
    ensures FreshNames(w, files) && TakenAway(w, target) && Stuck(w) == {}
    ensures Delivery(w).Some? && At(AfterTick(files, target, w), target) == None
  {
    var archive := SmallArchive();
    files, target := map[], "geoip-7.mmdb";
    w := Weather(true, Body([], false), Temp("geoip-7.tar.gz", true, None, true, true), true,
                 _ => archive, Temp(target, true, None, true, true), _ => true, true, false);
    assert Fetched(w) && Writable(w.mmdb);
    hide FirstMmdb, Delivers, Delivery;
    DeliveryIs(w, []);
  }

  lemma SmallArchive() returns (a: Archive)
    ensures FirstMmdb(a, [])
  {
    var entry := Entry(".mmdb", true, [], false);
    a := Tar([entry]);
    MmdbNameIsSuffix(entry.name);
    assert ToLower(".mmdb") == ".mmdb";
    assert IsPick([entry], 0) by { hide IsMmdbName; }
    hide IsPick, IsMmdbName;
    assert Capped(entry.data) == [];
  }

  // What the last successful cycle of a run delivered.
  ghost function LastDelivery(ws: seq<Weather>): Option<Bytes> {
    if ws == [] then None
    else if Delivery(ws[|ws| - 1]).Some? then Delivery(ws[|ws| - 1])
    else LastDelivery(ws[..|ws| - 1])
  }

  // The files a run leaves: the last delivery is in place and nothing else has changed.
  ghost function AfterRun(files: Files, target: Path, ws: seq<Weather>): Files {
    match LastDelivery(ws)
    case None => files
    case Some(d) => files[target := d]
  }

  lemma OneMoreTick(files: Files, target: Path, ws: seq<Weather>, i: nat)
    requires i < |ws| && FreshNames(ws[i], files) && target !in TempNames(ws[i])
    ensures FreshNames(ws[i], AfterRun(files, target, ws[..i]))
    ensures AfterTick(AfterRun(files, target, ws[..i]), target, ws[i]) == AfterRun(files, target, ws[..i + 1])
    ensures LastDelivery(ws[..i + 1]) == if Delivery(ws[i]).Some? then Delivery(ws[i]) else LastDelivery(ws[..i])
  {
    hide Delivery;
    assert ws[..i + 1][..i] == ws[..i];
  }

  // Same paths and contents, except possibly at `names`.
  ghost predicate SameBut(files: Files, files': Files, names: set<Path>) {
    forall p :: p !in names ==> At(files, p) == At(files', p)
  }

  // The two deferred removals.
  function Tidied(files: Files, w: Weather): Files {
    var f := if w.mmdb.removable then files - {w.mmdb.name} else files;
    if w.bundle.removable then f - {w.bundle.name} else f
  }

  // The directory through a cycle that got as far as two temp files.
  lemma FilesAfter(files: Files, w: Weather, content: Bytes, data: Bytes, target: Path)
    requires FreshNames(w, files)
    ensures var full := files[w.bundle.name := content][w.mmdb.name := data];
            var committed := (full - {w.mmdb.name})[target := data];
            && SameBut(files, Tidied(full, w), Stuck(w))
            && (Delivery(w) == None ==> SameBut(AfterTick(files, target, w), Tidied(full, w), Stuck(w)))
            && (Delivery(w) == Some(data) ==> SameBut(AfterTick(files, target, w), Tidied(committed, w), Stuck(w)))
            && (At(Tidied(committed, w), target) == Some(data) <==> !TakenAway(w, target))
  {
    hide Delivery;
  }

  lemma OutsideTarget(files: Files, files': Files, target: Path, w: Weather)
    requires SameBut(AfterTick(files, target, w), files', Stuck(w))
    ensures Delivery(w).None? ==> SameBut(files, files', Stuck(w))
    ensures SameBut(files, files', Stuck(w) + {target})
  {
    hide Delivery;
    assert forall p :: p != target ==> At(AfterTick(files, target, w), p) == At(files, p);
  }

  // Without two temp files there is nothing to open and nothing to deliver.
  lemma StoppedEarly(files: Files, target: Path, w: Weather)
    requires !(w.dirReady && Fetched(w) && w.reopens && Writable(w.mmdb)
               && exists d :: FirstMmdb(w.decode(w.reply.content), d))
    ensures Delivery(w) == None && !OpensOne(w) && AfterTick(files, target, w) == files
  {
    hide Fetched, Writable, FirstMmdb;
  }

  // ---- what a crash in the middle would leave -----------------------------------------

  // The states of the directory after some steps more.
  ghost predicate GoesOn(states: seq<Files>, states': seq<Files>) {
    states <= states'
  }

  // From state n on, the directory has differed from `before` at `names` only.
  ghost predicate Quiet(states: seq<Files>, n: nat, before: Files, names: set<Path>) {
    forall k :: n <= k < |states| ==> SameBut(before, states[k], names)
  }

  // What the target may hold at any moment of some cycles: what it held before, or one of their
  // deliveries, whole.
  ghost function Versions(before: Files, target: Path, ws: seq<Weather>): set<Option<Bytes>> {
    {At(before, target)} + set w | w in ws && Delivery(w).Some? :: Delivery(w)
  }

  ghost predicate WholeSince(states: seq<Files>, n: nat, target: Path, versions: set<Option<Bytes>>) {
    forall k :: n <= k < |states| ==> At(states[k], target) in versions
  }

  lemma QuietIsWhole(states: seq<Files>, n: nat, before: Files, target: Path, w: Weather)
    requires Quiet(states, n, before, TempNames(w)) && target !in TempNames(w)
    ensures WholeSince(states, n, target, Versions(before, target, [w]))
  {
    forall k | n <= k < |states|
      ensures At(states[k], target) == At(before, target)
    {
      assert SameBut(before, states[k], TempNames(w));
    }
  }

  // The directory after each of the two removals.
  function Closing(f: Files, w: Weather): seq<Files> {
    [if w.mmdb.removable then f - {w.mmdb.name} else f, Tidied(f, w)]
  }

  // Rename and removals: the target goes from what it held to the whole delivery, or stays.
  lemma CommitIsWhole(states: seq<Files>, n: nat, before: Files, f: Files, updated: bool, target: Path, w: Weather)
    requires target !in TempNames(w) && n <= |states|
    requires WholeSince(states, n, target, Versions(before, target, [w]))
    requires At(f, target) == if updated then Delivery(w) else At(before, target)
    requires updated ==> Delivery(w).Some?
    ensures WholeSince(states + (if updated then [f] else []) + Closing(f, w), n, target, Versions(before, target, [w]))
  {
    hide Delivery;
    var more := (if updated then [f] else []) + Closing(f, w);
    assert w in [w] && At(f, target) in Versions(before, target, [w]);
    forall g | g in more
      ensures At(g, target) == At(f, target)
    {
    }
    hide *;
    assert states + (if updated then [f] else []) + Closing(f, w) == states + more;
    AppendWhole(states, n, more, target, Versions(before, target, [w]));
  }

  lemma AppendWhole(states: seq<Files>, n: nat, more: seq<Files>, target: Path, versions: set<Option<Bytes>>)
    requires n <= |states| && WholeSince(states, n, target, versions)
    requires forall g :: g in more ==> At(g, target) in versions
    ensures WholeSince(states + more, n, target, versions)
  {
  }

  // ---- runs of cycles ------------------------------------------------------------------

  // Every path at which some cycle may have left a temp file behind.
  ghost function Leftovers(ws: seq<Weather>): set<Path> {
    set w, p | w in ws && p in Stuck(w) :: p
  }

  // CreateTemp never hands out a name that is taken, be it by a temp file left behind.
  ghost predicate FreshRun(ws: seq<Weather>, files: Files, target: Path) {
    && (forall w :: w in ws ==> FreshNames(w, files) && target !in TempNames(w))
    && (forall i, j :: 0 <= i < j < |ws| ==> Stuck(ws[i]) !! TempNames(ws[j]))
  }

  // A run after i cycles, as far as the disk goes: `now` is the directory, `trace` its states.
  ghost predicate DiskSoFar(files: Files, now: Files, first: seq<Files>, trace: seq<Files>, target: Path,
                            ws: seq<Weather>, i: nat)
    requires i <= |ws|
  {
    && GoesOn(first, trace)
    && SameBut(AfterRun(files, target, ws[..i]), now, Leftovers(ws[..i]))
    && At(now, target) in Versions(files, target, ws)
    && WholeSince(trace, |first|, target, Versions(files, target, ws))
  }

  lemma StillFresh(files: Files, now: Files, first: seq<Files>, trace: seq<Files>, target: Path,
                   ws: seq<Weather>, i: nat)
    requires FreshRun(ws, files, target) && i < |ws| && DiskSoFar(files, now, first, trace, target, ws, i)
    ensures FreshNames(ws[i], now) && target !in TempNames(ws[i])
    ensures LastDelivery(ws[..i + 1]) == if Delivery(ws[i]).Some? then Delivery(ws[i]) else LastDelivery(ws[..i])
  {
    var w := ws[i];
    OneMoreTick(files, target, ws, i);
    hide AfterRun;
    forall p | p in TempNames(w)
      ensures At(now, p) == None
    {
      assert p !in Leftovers(ws[..i]);
      assert At(AfterRun(files, target, ws[..i]), p) == None;
    }
    assert w.bundle.name in TempNames(w) && w.mmdb.name in TempNames(w);
  }

  lemma RunGoesOn(files: Files, was: Files, now: Files, target: Path, ws: seq<Weather>, i: nat)
    requires FreshRun(ws, files, target) && i < |ws|
    requires SameBut(AfterRun(files, target, ws[..i]), was, Leftovers(ws[..i]))
    requires SameBut(AfterTick(was, target, ws[i]), now, Stuck(ws[i]))
    ensures SameBut(AfterRun(files, target, ws[..i + 1]), now, Leftovers(ws[..i + 1]))
  {
    var w := ws[i];
    OneMoreTick(files, target, ws, i);
    forall p | p !in Leftovers(ws[..i + 1])
      ensures At(AfterRun(files, target, ws[..i + 1]), p) == At(now, p)
    {
      assert w in ws[..i + 1] && p !in Stuck(w);
      assert p !in Leftovers(ws[..i]) by { assert forall v :: v in ws[..i] ==> v in ws[..i + 1]; }
      assert At(AfterTick(was, target, w), p) == At(AfterTick(AfterRun(files, target, ws[..i]), target, w), p);
    }
  }

  lemma RunStarts(files: Files, trace: seq<Files>, target: Path, ws: seq<Weather>)
    ensures DiskSoFar(files, files, trace, trace, target, ws, 0)
    ensures LastDelivery(ws[..0]) == None
  {
  }

  lemma RunEnds(files: Files, now: Files, first: seq<Files>, trace: seq<Files>, target: Path, ws: seq<Weather>)
    requires FreshRun(ws, files, target) && DiskSoFar(files, now, first, trace, target, ws, |ws|)
    ensures GoesOn(first, trace) && SameBut(AfterRun(files, target, ws), now, Leftovers(ws))
    ensures At(now, target) == if LastDelivery(ws).Some? then LastDelivery(ws) else At(files, target)
    ensures WholeSince(trace, |first|, target, Versions(files, target, ws))
  {
    assert ws[..|ws|] == ws;
    assert target !in Leftovers(ws);
    assert At(AfterRun(files, target, ws), target) == At(now, target);
    hide WholeSince, Versions, Leftovers, LastDelivery;
  }

  lemma VersionsWithin(files: Files, now: Files, target: Path, ws: seq<Weather>, w: Weather)
    requires w in ws && At(now, target) in Versions(files, target, ws)
    ensures Versions(now, target, [w]) <= Versions(files, target, ws)
  {
  }

  lemma DiskGoesOn(files: Files, was: Files, now: Files, first: seq<Files>, trace: seq<Files>,
                   trace': seq<Files>, target: Path, ws: seq<Weather>, i: nat)
    requires FreshRun(ws, files, target) && i < |ws|
    requires DiskSoFar(files, was, first, trace, target, ws, i)
    requires SameBut(AfterTick(was, target, ws[i]), now, Stuck(ws[i])) && GoesOn(trace, trace')
    requires WholeSince(trace', |trace|, target, Versions(was, target, [ws[i]]))
    ensures DiskSoFar(files, now, first, trace', target, ws, i + 1)
  {
    RunGoesOn(files, was, now, target, ws, i);
    VersionsWithin(files, was, target, ws, ws[i]);
    assert At(now, target) in Versions(was, target, [ws[i]]) by {
      assert ws[i] in ws && target !in TempNames(ws[i]);
      assert At(AfterTick(was, target, ws[i]), target) == At(now, target);
    }
    hide AfterRun, AfterTick, Versions, SameBut, FreshRun;
    forall k | |first| <= k < |trace'|
      ensures At(trace'[k], target) in Versions(files, target, ws)
    {
      if k < |trace| {
        assert trace'[k] == trace[k];
      }
    }
  }

  // ---- the cycle ----------------------------------------------------------------------

  // The directory while a file is written, from empty to whole.
  ghost function Growing(files: Files, p: Path, data: Bytes): seq<Files> {
    seq(|data| + 1, k requires 0 <= k <= |data| => files[p := data[..k]])
  }

  lemma GrowingIsQuiet(states: seq<Files>, files: Files, p: Path, data: Bytes)
    ensures var more := states + Growing(files, p, data);
            GoesOn(states, more) && Quiet(more, |states|, files, {p})
  {
  }

  lemma NothingHappened(states: seq<Files>, files: Files, names: set<Path>, names': set<Path>)
    ensures SameBut(files, files, names) && GoesOn(states, states) && Quiet(states, |states|, files, names')
  {
  }

  class Disk {
    var files: Files
    ghost var trace: seq<Files>    // every state the directory has been put in

    constructor (files: Files)
      ensures this.files == files && trace == []
    {
      this.files, trace := files, [];
    }

    // Creates a file and fills it, byte by byte.
    method Write(p: Path, data: Bytes)
      modifies this
      ensures files == old(files)[p := data]
      ensures trace == old(trace) + Growing(old(files), p, data)
    {
      trace := trace + Growing(files, p, data);
      files := files[p := data];
    }

    method Remove(p: Path, works: bool)
      modifies this
      ensures files == if works then old(files) - {p} else old(files)
      ensures trace == old(trace) + [files]
    {
      if works {
        files := files - {p};
      }
      trace := trace + [files];
    }

    // Replaces whatever is at `to`, in one step.
    method Rename(from: Path, to: Path)
      requires from in files
      modifies this
      ensures files == (old(files) - {from})[to := old(files)[from]]
      ensures trace == old(trace) + [files]
    {
      files := (files - {from})[to := files[from]];
      trace := trace + [files];
    }
  }

  function GeoipOf(handler: Handler?): Lookup?
    reads handler
  {
    if handler == null then null else handler.geoip
  }

  predicate ShutDown(handler: Handler?)
    reads handler
  {
    handler != null && handler.geoipClosed
  }

  // What the wiring guarantees a swap: a handler in order, and a new handle.
  ghost predicate CanSwap(handler: Handler?, id: Handle, all: set<Lookup>)
    reads handler, GeoipOf(handler)
  {
    && DistinctHandles(all) && (forall l :: l in all ==> l.id != id)
    && (handler != null ==> handler.Valid() && (handler.geoip != null ==> handler.geoip in all))
  }

  /* Where the lookup a cycle opened has gone, given what was installed before and whether
     CloseGeoIP had run: into the handler after an update, and then the one it replaces is
     closed; otherwise it is closed itself, and the handler is as it was. */
  ghost predicate HandedOn(handler: Handler?, lookup: Lookup?, updated: bool, was: Lookup?, shut: bool)
    reads handler, lookup, was, GeoipOf(handler)
  {
    && (lookup != null && (!updated || handler == null || shut) ==> lookup.closes == 1)
    && (handler != null ==>
          && handler.Valid() && handler.geoipClosed == shut
          && handler.geoip == (if updated && !shut then lookup else was)
          && (updated && !shut && was != null ==> was.closes == 1))
  }

  lemma NothingHandedOn(handler: Handler?)
    requires handler != null ==> handler.Valid()
    ensures HandedOn(handler, null, false, GeoipOf(handler), ShutDown(handler))
  {
  }

  // Every lookup of `made` is closed once, or open and installed.
  ghost predicate AllSettled(made: set<Lookup>, handler: Handler?)
    reads made, handler
  {
    forall l :: l in made ==> l.closes == if GeoipOf(handler) == l then 0 else 1
  }

  ghost predicate AllClosed(made: set<Lookup>)
    reads made
  {
    forall l :: l in made ==> l.closes == 1
  }

  lemma RestIsClosed(made: set<Lookup>, handler: Handler?)
    requires AllSettled(made, handler)
    ensures AllClosed(made - {GeoipOf(handler)})
  {
  }

  lemma SettledGoesOn(made: set<Lookup>, handler: Handler?, lookup: Lookup?, updated: bool, was: Lookup?, shut: bool)
    requires AllClosed(made - {was}) && HandedOn(handler, lookup, updated, was, shut)
    requires (updated ==> lookup != null) && lookup !in made && (handler == null ==> was == null)
    ensures AllSettled(made, handler) && (lookup != null ==> AllSettled(made + {lookup}, handler))
  {
  }

  // The handles of `made` are new since handle `base`, and one belongs to each of the first i
  // cycles that opened a lookup.
  ghost predicate OpenedSoFar(all: set<Lookup>, made: set<Lookup>, base: Handle, ws: seq<Weather>, i: nat)
    requires i <= |ws|
  {
    && DistinctHandles(all + made)
    && (forall l :: l in all + made ==> l.id < base + i)
    && (forall j :: 0 <= j < i && OpensOne(ws[j]) ==> exists l :: l in made && l.id == base + j)
  }

  lemma OpenedGoesOn(all: set<Lookup>, made: set<Lookup>, base: Handle, ws: seq<Weather>, i: nat, lookup: Lookup?)
    requires i < |ws| && OpenedSoFar(all, made, base, ws, i)
    requires (lookup != null <==> OpensOne(ws[i])) && (lookup != null ==> lookup.id == base + i)
    ensures lookup == null ==> OpenedSoFar(all, made, base, ws, i + 1)
    ensures lookup != null ==> OpenedSoFar(all, made + {lookup}, base, ws, i + 1)
  {
    hide OpensOne;
    if lookup != null {
      assert all + (made + {lookup}) == all + made + {lookup};
      forall j | 0 <= j < i + 1 && OpensOne(ws[j])
        ensures exists l :: l in made + {lookup} && l.id == base + j
      {
        if j == i {
          assert lookup in made + {lookup} && lookup.id == base + j;
        } else {
          var l :| l in made && l.id == base + j;
          assert l in made + {lookup};
        }
      }
    }
  }

  lemma NextHandle(all: set<Lookup>, made: set<Lookup>, base: Handle, ws: seq<Weather>, i: nat, handler: Handler?)
    requires i < |ws| && OpenedSoFar(all, made, base, ws, i)
    requires handler != null ==> handler.Valid()
    requires GeoipOf(handler) != null ==> GeoipOf(handler) in all + made
    ensures CanSwap(handler, base + i, all + made)
    ensures forall l :: l in made ==> l.id != base + i
  {
    hide OpensOne;
  }

  // The handler serves what the last update of the run delivered, once there was one.
  ghost predicate ServesLast(made: set<Lookup>, handler: Handler?, ws: seq<Weather>)
    reads handler
  {
    LastDelivery(ws).Some? && handler != null && !handler.geoipClosed ==>
      handler.geoip in made && Some(handler.geoip.data) == LastDelivery(ws)
  }

  lemma ServesNext(made: set<Lookup>, handler: Handler?, lookup: Lookup?, updated: bool, was: Lookup?, shut: bool,
                   ws: seq<Weather>, i: nat)
    requires i < |ws| && HandedOn(handler, lookup, updated, was, shut)
    requires handler != null && !shut && LastDelivery(ws[..i]).Some? ==>
               was in made && Some(was.data) == LastDelivery(ws[..i])
    requires LastDelivery(ws[..i + 1]) == if Delivery(ws[i]).Some? then Delivery(ws[i]) else LastDelivery(ws[..i])
    requires updated <==> Delivery(ws[i]).Some?
    requires updated ==> lookup != null && Some(lookup.data) == Delivery(ws[i])
    ensures handler != null ==> handler.Valid()
    ensures ShutDown(handler) == (handler != null && shut)
    ensures GeoipOf(handler) == if handler == null then null else if updated && !shut then lookup else was
    ensures ServesLast(if lookup == null then made else made + {lookup}, handler, ws[..i + 1])
  {
    hide Delivery, LastDelivery;
  }

  lemma StartsInOrder(files: Files, trace: seq<Files>, target: Path, all: set<Lookup>, base: Handle, ws: seq<Weather>,
                      handler: Handler?)
    requires DistinctHandles(all) && forall l :: l in all ==> l.id < base
    ensures DiskSoFar(files, files, trace, trace, target, ws, 0)
    ensures OpenedSoFar(all, {}, base, ws, 0) && AllSettled({}, handler) && ServesLast({}, handler, ws[..0])
  {
    RunStarts(files, trace, target, ws);
    hide LastDelivery, DiskSoFar, OpensOne;
    assert all + {} == all;
  }

  datatype Download = Failed | Unchanged | Bundle(path: Path)

  datatype Prepared = Stopped(why: Outcome) | Ready(tmp: Path, extracted: Path)

  class Updater {
    const disk: Disk
    const target: Path

    constructor (disk: Disk, target: Path)
      ensures this.disk == disk && this.target == target
    {
      this.disk, this.target := disk, target;
    }

    method WriteTemp(t: Temp, data: Bytes)
      modifies disk
      ensures disk.files == old(disk.files)[t.name := data] && SameBut(old(disk.files), disk.files, {t.name})
      ensures GoesOn(old(disk.trace), disk.trace)
      ensures Quiet(disk.trace, |old(disk.trace)|, old(disk.files), {t.name})
    {
      GrowingIsQuiet(disk.trace, disk.files, t.name, data);
      hide Quiet, GoesOn;
      disk.Write(t.name, data);
    }

    // Removes a temp file, as on every error path; `before` is the directory without it.
    method Discard(t: Temp, ghost before: Files, ghost first: seq<Files>)
      requires t.name !in before && SameBut(before, disk.files, {t.name})
      requires GoesOn(first, disk.trace) && Quiet(disk.trace, |first|, before, {t.name})
      modifies disk
      ensures SameBut(before, disk.files, Left(t))
      ensures GoesOn(first, disk.trace) && Quiet(disk.trace, |first|, before, {t.name})
    {
      disk.Remove(t.name, t.removable);
    }

    method FetchBundle(w: Weather) returns (r: Download)
      requires w.bundle.name !in disk.files
      modifies disk
      ensures r.Bundle? <==> Fetched(w)
      ensures r.Bundle? ==> r.path == w.bundle.name && disk.files == old(disk.files)[r.path := w.reply.content]
      ensures r.Unchanged? <==> w.reply.NotModified?
      ensures !r.Bundle? ==> SameBut(old(disk.files), disk.files, Left(w.bundle))
      ensures GoesOn(old(disk.trace), disk.trace)
      ensures Quiet(disk.trace, |old(disk.trace)|, old(disk.files), {w.bundle.name})
    {
      ghost var before, first := disk.files, disk.trace;
      NothingHappened(first, before, Left(w.bundle), {w.bundle.name});
      hide SameBut, GoesOn, Quiet;
      if w.reply.NotModified? {
        return Unchanged;
      }
      if !w.reply.Body? || !w.bundle.created {
        return Failed;
      }
      if w.reply.breaks || w.bundle.spoilt.Some? {
        WriteTemp(w.bundle, if w.bundle.spoilt.Some? then w.bundle.spoilt.value else Capped(w.reply.content));
        Discard(w.bundle, before, first);
        return Failed;
      }
      WriteTemp(w.bundle, Capped(w.reply.content));
      var written := |Capped(w.reply.content)|;
      if !w.bundle.closes || written >= MAX_BYTES {
        Discard(w.bundle, before, first);
        return Failed;
      }
      r := Bundle(w.bundle.name);
    }

    // Walks the archive to the first regular .mmdb entry and copies it to a temp file.
    method Extract(path: Path, w: Weather) returns (r: Option<Path>)
      requires path in disk.files && w.mmdb.name !in disk.files
      modifies disk
      ensures var a := w.decode(old(disk.files)[path]);
              && (r.Some? <==> w.reopens && Writable(w.mmdb) && exists d :: FirstMmdb(a, d))
              && (r.Some? ==> r.value == w.mmdb.name && r.value in disk.files && FirstMmdb(a, disk.files[r.value])
                              && disk.files == old(disk.files)[r.value := disk.files[r.value]])
      ensures r.None? ==> SameBut(old(disk.files), disk.files, Left(w.mmdb))
      ensures GoesOn(old(disk.trace), disk.trace)
      ensures Quiet(disk.trace, |old(disk.trace)|, old(disk.files), {w.mmdb.name})
    {
      ghost var before, first := disk.files, disk.trace;
      NothingHappened(first, before, Left(w.mmdb), {w.mmdb.name});
      hide SameBut, GoesOn, Quiet;
      if !w.reopens {
        return None;
      }
      var archive := w.decode(disk.files[path]);
      if archive.NotGzip? {
        return None;
      }
      var es, i := archive.entries, 0;
      while i < |es|
        invariant 0 <= i <= |es|
        invariant forall j :: 0 <= j < i ==> !(es[j].regular && IsMmdbName(es[j].name))
        invariant disk.files == old(disk.files) && disk.trace == old(disk.trace)
      {
        if es[i].regular && IsMmdbName(es[i].name) {
          assert IsPick(es, i) && forall k :: IsPick(es, k) ==> k == i;
          if !w.mmdb.created {
            return None;
          }
          if !Readable(es[i]) || w.mmdb.spoilt.Some? {
            WriteTemp(w.mmdb, if w.mmdb.spoilt.Some? then w.mmdb.spoilt.value else es[i].data);
            Discard(w.mmdb, before, first);
            return None;
          }
          WriteTemp(w.mmdb, Capped(es[i].data));
          assert FirstMmdb(archive, Capped(es[i].data));
          if !w.mmdb.closes {
            Discard(w.mmdb, before, first);
            return None;
          }
          return Some(w.mmdb.name);
        }
        i := i + 1;
      }
      return None;
    }

    // Downloads and extracts; when it stops early it has tidied up behind itself.
    method Prepare(w: Weather) returns (r: Prepared)
      requires FreshNames(w, disk.files)
      modifies disk
      ensures r.Stopped? <==> !(w.dirReady && Fetched(w) && w.reopens && Writable(w.mmdb)
                                && exists d :: FirstMmdb(w.decode(w.reply.content), d))
      ensures r.Stopped? ==> r.why == if !w.dirReady then NoTargetDir
                                      else if w.reply.NotModified? then UpToDate
                                      else if !Fetched(w) then DownloadFailed
                                      else ExtractFailed
      ensures r.Stopped? ==> SameBut(old(disk.files), disk.files, Stuck(w))
      ensures r.Ready? ==>
                && r.tmp == w.bundle.name && r.extracted == w.mmdb.name && r.extracted in disk.files
                && FirstMmdb(w.decode(w.reply.content), disk.files[r.extracted])
                && disk.files == old(disk.files)[r.tmp := w.reply.content][r.extracted := disk.files[r.extracted]]
      ensures GoesOn(old(disk.trace), disk.trace)
      ensures Quiet(disk.trace, |old(disk.trace)|, old(disk.files), TempNames(w))
    {
      hide IsPick, FirstMmdb;
      if !w.dirReady {
        return Stopped(NoTargetDir);
      }
      var fetched := FetchBundle(w);
      match fetched
      case Failed => return Stopped(DownloadFailed);
      case Unchanged => return Stopped(UpToDate);
      case Bundle(tmp) =>
        var extracted := Extract(tmp, w);
        if extracted.None? {
          disk.Remove(tmp, w.bundle.removable);
          return Stopped(ExtractFailed);
        }
        r := Ready(tmp, extracted.value);
    }

    // Verifies the extracted file, renames it over the target and hands the lookup on.
    // `handler` is what OnSwap registered, if anything; the lookup ends up installed or closed.
    method Commit(extracted: Path, w: Weather, handler: Handler?, id: Handle, ghost all: set<Lookup>)
      returns (outcome: Outcome, lookup: Lookup?)
      requires extracted in disk.files
      requires CanSwap(handler, id, all)
      modifies disk, handler, GeoipOf(handler)
      ensures var data := old(disk.files)[extracted];
              && outcome == (if !w.opens(data) then VerifyFailed else if !w.renames then RenameFailed else Updated)
              && disk.files == (if outcome.Updated? then (old(disk.files) - {extracted})[target := data]
                                else old(disk.files))
              && disk.trace == old(disk.trace) + (if outcome.Updated? then [disk.files] else [])
              && (lookup != null <==> w.opens(data))
              && (lookup != null ==> fresh(lookup) && lookup.id == id && lookup.data == data)
      ensures HandedOn(handler, lookup, outcome.Updated?, old(GeoipOf(handler)), old(ShutDown(handler)))
    {
      var data := disk.files[extracted];
      if !w.opens(data) {
        return VerifyFailed, null;
      }
      lookup := new Lookup(id, data, w.closeFails);
      if !w.renames {
        var _ := lookup.Close();
        return RenameFailed, lookup;
      }
      disk.Rename(extracted, target);
      outcome := Updated;
      if handler == null {
        var _ := lookup.Close();
      } else {
        handler.SetGeoIP(lookup, all + {lookup});
      }
    }

    // The two deferred removals.
    method CleanUp(tmp: Path, extracted: Path, w: Weather)
      requires tmp == w.bundle.name && extracted == w.mmdb.name
      modifies disk
      ensures disk.files == Tidied(old(disk.files), w)
      ensures disk.trace == old(disk.trace) + Closing(old(disk.files), w)
    {
      disk.Remove(extracted, w.mmdb.removable);
      disk.Remove(tmp, w.bundle.removable);
    }

    // One cycle.
    method Tick(w: Weather, handler: Handler?, id: Handle, ghost all: set<Lookup>)
      returns (outcome: Outcome, lookup: Lookup?)
      requires FreshNames(w, disk.files)
      requires CanSwap(handler, id, all)
      modifies disk, handler, GeoipOf(handler)
      ensures outcome.Updated? <==> Delivery(w).Some?
      ensures SameBut(AfterTick(old(disk.files), target, w), disk.files, Stuck(w))
      ensures !outcome.Updated? ==> SameBut(old(disk.files), disk.files, Stuck(w))
      ensures outcome.Updated? ==> SameBut(old(disk.files), disk.files, Stuck(w) + {target})
      ensures outcome.Updated? ==> (At(disk.files, target) == Delivery(w) <==> !TakenAway(w, target))
      ensures GoesOn(old(disk.trace), disk.trace)
      ensures target !in TempNames(w) ==>
                WholeSince(disk.trace, |old(disk.trace)|, target, Versions(old(disk.files), target, [w]))
      ensures lookup != null <==> OpensOne(w)
      ensures lookup != null ==> fresh(lookup) && lookup.id == id
      ensures outcome.Updated? ==> lookup != null && Some(lookup.data) == Delivery(w)
      ensures HandedOn(handler, lookup, outcome.Updated?, old(GeoipOf(handler)), old(ShutDown(handler)))
    {
      hide IsPick, FirstMmdb, SameBut, Quiet, WholeSince, Versions, Closing, Tidied;
      hide AfterTick, OpensOne, Delivery;
      var ready := Prepare(w);
      if target !in TempNames(w) {
        QuietIsWhole(disk.trace, |old(disk.trace)|, old(disk.files), target, w);
      }
      if ready.Stopped? {
        StoppedEarly(old(disk.files), target, w);
        OutsideTarget(old(disk.files), disk.files, target, w);
        NothingHandedOn(handler);
        return ready.why, null;
      }
      ghost var data := disk.files[ready.extracted];
      DeliveryIs(w, data);
      FilesAfter(old(disk.files), w, w.reply.content, data, target);
      ghost var trace := disk.trace;
      outcome, lookup := Commit(ready.extracted, w, handler, id, all);
      if target !in TempNames(w) {
        CommitIsWhole(trace, |old(disk.trace)|, old(disk.files), disk.files, outcome.Updated?, target, w);
      }
      CleanUp(ready.tmp, ready.extracted, w);
      OutsideTarget(old(disk.files), disk.files, target, w);
    }

    // What a run keeps from cycle to cycle: i of them are done, `made` are the lookups they opened.
    ghost predicate RunSoFar(ws: seq<Weather>, i: nat, handler: Handler?, base: Handle, all: set<Lookup>,
                             made: set<Lookup>, files: Files, first: seq<Files>)
      reads disk, handler, GeoipOf(handler), made
    {
      && i <= |ws|
      && DiskSoFar(files, disk.files, first, disk.trace, target, ws, i)
      && OpenedSoFar(all, made, base, ws, i)
      && (handler != null ==> handler.Valid())
      && (GeoipOf(handler) != null ==> GeoipOf(handler) in all + made)
      && AllSettled(made, handler)
      && ServesLast(made, handler, ws[..i])
    }

    method RunCycle(ws: seq<Weather>, i: nat, handler: Handler?, base: Handle, ghost all: set<Lookup>,
                    ghost made: set<Lookup>, ghost files: Files, ghost first: seq<Files>)
      returns (lookup: Lookup?)
      requires FreshRun(ws, files, target) && i < |ws|
      requires RunSoFar(ws, i, handler, base, all, made, files, first)
      modifies disk, handler, GeoipOf(handler)
      ensures ShutDown(handler) == old(ShutDown(handler))
      ensures lookup != null ==> fresh(lookup)
      ensures GeoipOf(handler) in {null, lookup, old(GeoipOf(handler))}
      ensures RunSoFar(ws, i + 1, handler, base, all, if lookup == null then made else made + {lookup}, files, first)
    {
      ghost var was, trace, shown := disk.files, disk.trace, GeoipOf(handler);
      hide *;
      RestIsClosed(made, handler);
      StillFresh(files, was, first, trace, target, ws, i);
      NextHandle(all, made, base, ws, i, handler);
      var outcome;
      outcome, lookup := Tick(ws[i], handler, base + i, all + made);
      DiskGoesOn(files, was, disk.files, first, trace, disk.trace, target, ws, i);
      SettledGoesOn(made, handler, lookup, outcome.Updated?, shown, ShutDown(handler));
      OpenedGoesOn(all, made, base, ws, i, lookup);
      ServesNext(made, handler, lookup, outcome.Updated?, shown, ShutDown(handler), ws, i);
    }

    // The update loop: one cycle at once, then one per timer tick until it is cancelled.
    method Run(ws: seq<Weather>, handler: Handler?, base: Handle, ghost all: set<Lookup>)
      returns (ghost made: set<Lookup>)
      requires FreshRun(ws, disk.files, target)
      requires DistinctHandles(all) && forall l :: l in all ==> l.id < base
      requires handler != null ==> handler.Valid() && (handler.geoip != null ==> handler.geoip in all)
      modifies disk, handler, GeoipOf(handler)
      ensures SameBut(AfterRun(old(disk.files), target, ws), disk.files, Leftovers(ws))
      ensures At(disk.files, target) == if LastDelivery(ws).Some? then LastDelivery(ws) else At(old(disk.files), target)
      ensures GoesOn(old(disk.trace), disk.trace)
      ensures WholeSince(disk.trace, |old(disk.trace)|, target, Versions(old(disk.files), target, ws))
      ensures handler != null ==> handler.Valid() && ShutDown(handler) == old(ShutDown(handler))
      ensures OpenedSoFar(all, made, base, ws, |ws|)
      ensures AllSettled(made, handler)
      ensures ServesLast(made, handler, ws)
    {
      made := {};
      ghost var files, first, installed := disk.files, disk.trace, GeoipOf(handler);
      StartsInOrder(files, first, target, all, base, ws, handler);
      assert RunSoFar(ws, 0, handler, base, all, made, files, first);
      hide *;
      var i := 0;
      while i < |ws|
        invariant 0 <= i <= |ws|
        invariant RunSoFar(ws, i, handler, base, all, made, files, first)
        invariant forall l :: l in made ==> fresh(l)
        invariant ShutDown(handler) == old(ShutDown(handler))
        invariant GeoipOf(handler) == null || GeoipOf(handler) in made || GeoipOf(handler) == installed
      {
        var lookup := RunCycle(ws, i, handler, base, all, made, files, first);
        if lookup != null {
          made := made + {lookup};
        }
        i := i + 1;
      }
      RunIsOver(ws, handler, base, all, made, files, first);
    }

    lemma RunIsOver(ws: seq<Weather>, handler: Handler?, base: Handle, all: set<Lookup>,
                    made: set<Lookup>, files: Files, first: seq<Files>)
      requires FreshRun(ws, files, target) && RunSoFar(ws, |ws|, handler, base, all, made, files, first)
      ensures SameBut(AfterRun(files, target, ws), disk.files, Leftovers(ws))
      ensures At(disk.files, target) == if LastDelivery(ws).Some? then LastDelivery(ws) else At(files, target)
      ensures GoesOn(first, disk.trace) && WholeSince(disk.trace, |first|, target, Versions(files, target, ws))
      ensures handler != null ==> handler.Valid()
      ensures OpenedSoFar(all, made, base, ws, |ws|) && AllSettled(made, handler) && ServesLast(made, handler, ws)
    {
      assert ws[..|ws|] == ws;
      RunEnds(files, disk.files, first, disk.trace, target, ws);
      hide OpenedSoFar, AllSettled, ServesLast, WholeSince, SameBut;
    }
  }
}
