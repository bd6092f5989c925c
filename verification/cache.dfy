/** The two caches in front of the parser and the request that uses them.
    A session remembers, per region code, the column set it has already
    produced (the in-memory cache, empty for every code at construction) and
    sees the cache files in its folder, one per region, named by putting the
    code in place of "{}" in a file-name template. A request for some regions
    answers every region from memory, else from its cache file (remembering
    it), else by parsing the archives (remembering it and writing the cache
    file), and appends the answers in request order. */
module Cache {
  import opened Text
  import opened Results
  import opened Schema
  import opened Frames
  import opened Parser

  /** Every non-overlapping "{}" in `s`, scanned left to right, replaced by
      `rep`. Putting "{}" back in place of "{}" changes nothing, and a
      two-character replacement keeps the length. */
  function ReplaceBraces(s: string, rep: string): (r: string)
    ensures rep == "{}" ==> r == s
    ensures |rep| == 2 ==> |r| == |s|
  {
    if |s| < 2 then s
    else if s[0] == '{' && s[1] == '}' then rep + ReplaceBraces(s[2..], rep)
    else [s[0]] + ReplaceBraces(s[1..], rep)
  }

  /** The template holds a place for the code. */
  predicate HasSlot(s: string) {
    exists i :: 0 <= i < |s| - 1 && s[i] == '{' && s[i + 1] == '}'
  }

  /** A template without a place for the code names the same file for every
      region. */
  lemma {:induction false} ReplaceNoSlot(s: string, rep: string)
    requires !HasSlot(s)
    ensures ReplaceBraces(s, rep) == s
  {
    if |s| >= 2 {
      assert !(s[0] == '{' && s[1] == '}');
      forall i | 0 <= i < |s| - 2
        ensures !(s[1..][i] == '{' && s[1..][i + 1] == '}')
      {
        assert s[1..][i] == s[i + 1] && s[1..][i + 1] == s[i + 2];
      }
      ReplaceNoSlot(s[1..], rep);
    }
  }

  /** A template with a place for the code names different files for
      different codes of one length. */
  lemma {:induction false} ReplaceInjective(s: string, a: string, b: string)
    requires HasSlot(s) && |a| == |b|
    requires ReplaceBraces(s, a) == ReplaceBraces(s, b)
    ensures a == b
  {
    var i :| 0 <= i < |s| - 1 && s[i] == '{' && s[i + 1] == '}';
    if s[0] == '{' && s[1] == '}' {
      assert ReplaceBraces(s, a)[..|a|] == a;
      assert ReplaceBraces(s, b)[..|b|] == b;
    } else {
      assert i > 0;
      assert s[1..][i - 1] == '{' && s[1..][i] == '}';
      assert ReplaceBraces(s, a)[1..] == ReplaceBraces(s[1..], a);
      assert ReplaceBraces(s, b)[1..] == ReplaceBraces(s[1..], b);
      ReplaceInjective(s[1..], a, b);
    }
  }

  lemma ReplaceLeadingSlot(q: string, rep: string)
    requires !HasSlot(q)
    ensures ReplaceBraces("{}" + q, rep) == rep + q
  {
    var s := "{}" + q;
    assert s[0] == '{' && s[1] == '}' && s[2..] == q;
    ReplaceNoSlot(q, rep);
  }

  lemma ReplaceSkipsChar(c: char, s: string, rep: string)
    requires c != '{' && |s| > 0
    ensures ReplaceBraces([c] + s, rep) == [c] + ReplaceBraces(s, rep)
  {
    assert ([c] + s)[0] == c && ([c] + s)[1..] == s;
  }

  /** A template with exactly one place for the code, after text without
      braces, names the file by putting the code in that place. */
  lemma {:induction false} ReplaceSingleSlot(p: string, q: string, rep: string)
    requires '{' !in p && !HasSlot(q)
    ensures ReplaceBraces(p + "{}" + q, rep) == p + rep + q
  {
    if |p| == 0 {
      assert p + "{}" + q == "{}" + q && p + rep + q == rep + q;
      ReplaceLeadingSlot(q, rep);
    } else {
      var rest := p[1..] + "{}" + q;
      assert p + "{}" + q == [p[0]] + rest;
      ReplaceSkipsChar(p[0], rest, rep);
      assert '{' !in p[1..] by {
        assert forall x :: x in p[1..] ==> x in p;
      }
      ReplaceSingleSlot(p[1..], q, rep);
      assert [p[0]] + (p[1..] + rep + q) == p + rep + q;
    }
  }

  /** The template used when none is given. */
  const DefaultTemplate: string := "data_{}.pkl.gz"

  /** The default template names region `code`'s file "data_<code>.pkl.gz". */
  lemma DefaultNames(code: string)
    ensures HasSlot(DefaultTemplate)
    ensures ReplaceBraces(DefaultTemplate, code) == "data_" + code + ".pkl.gz"
  {
    assert DefaultTemplate[5] == '{' && DefaultTemplate[6] == '}';
    assert DefaultTemplate == "data_" + "{}" + ".pkl.gz";
    assert !HasSlot(".pkl.gz");
    ReplaceSingleSlot("data_", ".pkl.gz", code);
  }

  /** The in-memory cache, indexed by region code, and the cache files the
      session's folder holds, by file name. */
  datatype Session = Session(template: string, memo: map<string, Option<Frame>>, disk: map<string, Frame>)

  /** The cache file name of a region. */
  function CacheName(s: Session, code: string): string {
    ReplaceBraces(s.template, code)
  }

  /** One memory entry per region code, and every remembered or stored
      column set complete. */
  ghost predicate Valid(s: Session) {
    && (forall c :: IsCode(c) ==> c in s.memo)
    && (forall c | c in s.memo && s.memo[c].Some? :: WellFormed(s.memo[c].value))
    && (forall n | n in s.disk :: WellFormed(s.disk[n]))
  }

  /** A freshly constructed downloader: nothing remembered yet, and whatever
      cache files its folder already holds. */
  function NewSession(template: string, disk: map<string, Frame>): (s: Session)
    requires forall n | n in disk :: WellFormed(disk[n])
    ensures Valid(s)
    ensures forall c :: IsCode(c) ==> s.memo[c].None?
  {
    Session(template, map c | c in Members :: None, disk)
  }

  /** What a session answers for a region, as documented: the remembered
      column set, else the region's cache file, else the archives parsed. */
  function View(s: Session, code: string, archives: seq<Archive>): (r: Result<Frame, RegionError>)
    requires Valid(s) && IsCode(code)
    ensures r.Success? ==> WellFormed(r.value)
  {
    if s.memo[code].Some? then Success(s.memo[code].value)
    else if CacheName(s, code) in s.disk then Success(s.disk[CacheName(s, code)])
    else RegionFrame(code, archives)
  }

  /** One region of a request: the answer and the session after it. A
      region answered from its cache file is remembered; a parsed region is
      remembered and written to its cache file; a parse that raises leaves
      the session as it was. */
  function Step(s: Session, code: string, archives: seq<Archive>): (r: (Result<Frame, RegionError>, Session))
    requires Valid(s) && IsCode(code)
    ensures Valid(r.1) && r.1.template == s.template
    ensures r.0.Success? ==> WellFormed(r.0.value)
  {
    var name := CacheName(s, code);
    if s.memo[code].Some? then (Success(s.memo[code].value), s)
    else if name in s.disk then (Success(s.disk[name]), s.(memo := s.memo[code := Some(s.disk[name])]))
    else match RegionFrame(code, archives)
      case Failure(e) => (Failure(e), s)
      case Success(f) => (Success(f), s.(memo := s.memo[code := Some(f)], disk := s.disk[name := f]))
  }

  /** A step answers the region as documented and records the answer: a
      failure changes nothing, a success is remembered, and the only cache
      file that can appear is the region's own, holding the answer. */
  lemma StepSpec(s: Session, code: string, archives: seq<Archive>)
    requires Valid(s) && IsCode(code)
    ensures var r := Step(s, code, archives);
      && r.0 == View(s, code, archives)
      && (r.0.Failure? ==> r.1 == s)
      && (r.0.Success? ==> r.1.memo == s.memo[code := Some(r.0.value)])
      && (r.1.disk == s.disk || (CacheName(s, code) !in s.disk && r.1.disk == s.disk[CacheName(s, code) := r.0.value]))
      && (r.1.disk != s.disk ==> s.memo[code].None? && CacheName(s, code) !in s.disk && r.0 == RegionFrame(code, archives))
      && (s.memo[code].Some? ==> r.1 == s)
  {
  }

  /** What a request yields: refused because it names an unknown region, an
      exception from parsing, or the combined column set. */
  datatype Outcome = Rejected | Raised(error: RegionError) | Data(frame: Frame)

  datatype Answer = Answer(outcome: Outcome, session: Session)

  predicate AllCodes(codes: seq<string>) {
    forall i :: 0 <= i < |codes| ==> IsCode(codes[i])
  }

  /** The regions of a request, appending each answer to `acc`; the first
      exception ends the request with the session as it then is. */
  function Resolve(s: Session, codes: seq<string>, archives: seq<Archive>, acc: Frame): (a: Answer)
    requires Valid(s) && AllCodes(codes) && WellFormed(acc)
    ensures Valid(a.session) && a.session.template == s.template
    ensures a.outcome.Data? ==> WellFormed(a.outcome.frame)
    ensures !a.outcome.Rejected?
    decreases |codes|
  {
    if |codes| == 0 then Answer(Data(acc), s)
    else
      var step := Step(s, codes[0], archives);
      StepSpec(s, codes[0], archives);
      if step.0.Failure? then Answer(Raised(step.0.error), step.1)
      else Resolve(step.1, codes[1..], archives, Append(acc, step.0.value))
  }

  /** The regions a request names: all of them, in table order, when none
      are given. */
  function Requested(regions: Option<seq<string>>): seq<string> {
    match regions
    case None => Codes
    case Some(rs) => rs
  }

  /** The source's `get_dict`. */
  function GetDict(s: Session, regions: Option<seq<string>>, archives: seq<Archive>): (a: Answer)
    requires Valid(s)
    ensures a.outcome.Rejected? <==> regions.Some? && !AllCodes(regions.value)
    ensures a.outcome.Rejected? ==> a.session == s
    ensures Valid(a.session) && a.session.template == s.template
    ensures a.outcome.Data? ==> WellFormed(a.outcome.frame)
  {
    CodesMatchTable();
    var codes := Requested(regions);
    if !AllCodes(codes) then Answer(Rejected, s)
    else Resolve(s, codes, archives, Empty())
  }

  /** Leaving the regions out requests all of them, in table order. */
  lemma DefaultIsAllRegions(s: Session, archives: seq<Archive>)
    requires Valid(s)
    ensures GetDict(s, None, archives) == GetDict(s, Some(Codes), archives)
  {
  }

  /** The documented answers for a list of regions, or the first failure. */
  function Views(s: Session, codes: seq<string>, archives: seq<Archive>): (r: Result<seq<Frame>, RegionError>)
    requires Valid(s) && AllCodes(codes)
    ensures r.Success? ==> |r.value| == |codes| && AllShaped(r.value, Names)
  {
    if |codes| == 0 then Success([])
    else match View(s, codes[0], archives)
      case Failure(e) => Failure(e)
      case Success(f) =>
        match Views(s, codes[1..], archives)
        case Failure(e) => Failure(e)
        case Success(fs) =>
          AllShapedCons(f, fs, Names);
          Success([f] + fs)
  }

  /** With a place for the code in the template, answering one region
      changes no region's documented answer. */
  lemma StepKeepsViews(s: Session, code: string, d: string, archives: seq<Archive>)
    requires Valid(s) && IsCode(code) && IsCode(d) && HasSlot(s.template)
    ensures View(Step(s, code, archives).1, d, archives) == View(s, d, archives)
  {
    var next := Step(s, code, archives).1;
    StepSpec(s, code, archives);
    if d != code && CacheName(s, code) == CacheName(s, d) {
      MemberNamesWellFormed();
      ReplaceInjective(s.template, code, d);
    }
  }

  lemma {:induction false} ViewsAgree(s: Session, t: Session, codes: seq<string>, archives: seq<Archive>)
    requires Valid(s) && Valid(t) && AllCodes(codes)
    requires forall c :: IsCode(c) ==> View(s, c, archives) == View(t, c, archives)
    ensures Views(s, codes, archives) == Views(t, codes, archives)
  {
    if |codes| > 0 {
      ViewsAgree(s, t, codes[1..], archives);
    }
  }

  /** ... and neither does a whole request. */
  lemma {:induction false} ResolveKeepsViews(s: Session, codes: seq<string>, archives: seq<Archive>, acc: Frame)
    requires Valid(s) && AllCodes(codes) && WellFormed(acc) && HasSlot(s.template)
    ensures forall c :: IsCode(c) ==> View(Resolve(s, codes, archives, acc).session, c, archives) == View(s, c, archives)
    decreases |codes|
  {
    if |codes| > 0 {
      var step := Step(s, codes[0], archives);
      StepSpec(s, codes[0], archives);
      var r, next := step.0, step.1;
      forall c | IsCode(c)
        ensures View(next, c, archives) == View(s, c, archives)
      {
        StepKeepsViews(s, codes[0], c, archives);
      }
      if r.Success? {
        ResolveKeepsViews(next, codes[1..], archives, Append(acc, r.value));
      }
    }
  }

  /** With a place for the code in the template, the regions of a request
      are answered as documented: the answers appended to `acc` in request
      order, or the first failure. */
  lemma {:induction false} ResolveMatchesViews(s: Session, codes: seq<string>, archives: seq<Archive>, acc: Frame)
    requires Valid(s) && AllCodes(codes) && WellFormed(acc) && HasSlot(s.template)
    ensures Resolve(s, codes, archives, acc).outcome ==
      match Views(s, codes, archives)
      case Failure(e) => Raised(e)
      case Success(fs) => Data(ConcatFrom(acc, fs))
    decreases |codes|
  {
    if |codes| > 0 {
      var step := Step(s, codes[0], archives);
      StepSpec(s, codes[0], archives);
      var r, next := step.0, step.1;
      if r.Success? {
        var acc' := Append(acc, r.value);
        forall c | IsCode(c)
          ensures View(next, c, archives) == View(s, c, archives)
        {
          StepKeepsViews(s, codes[0], c, archives);
        }
        ViewsAgree(next, s, codes[1..], archives);
        ResolveMatchesViews(next, codes[1..], archives, acc');
        match Views(s, codes[1..], archives)
        case Failure(e) =>
        case Success(fs) =>
          assert ([r.value] + fs)[1..] == fs;
      }
    }
  }

  /** A request naming only known regions, with a template that has a place
      for the code, yields every region's documented answer appended in
      request order, or the first failure. */
  lemma GetDictMatchesViews(s: Session, regions: Option<seq<string>>, archives: seq<Archive>)
    requires Valid(s) && HasSlot(s.template) && AllCodes(Requested(regions))
    ensures GetDict(s, regions, archives).outcome ==
      match Views(s, Requested(regions), archives)
      case Failure(e) => Raised(e)
      case Success(fs) => Data(ConcatFrom(Empty(), fs))
  {
    ResolveMatchesViews(s, Requested(regions), archives, Empty());
  }

  /** The combined column set of a request that succeeds, for any
      template: every requested region is then remembered, and every column
      holds the remembered regions' columns one after another in request
      order, with as many records as they together. */
  lemma GetDictContents(s: Session, regions: Option<seq<string>>, archives: seq<Archive>)
    requires Valid(s)
    requires GetDict(s, regions, archives).outcome.Data?
    ensures var a, codes := GetDict(s, regions, archives), Requested(regions);
      && AllCodes(codes)
      && (forall i :: 0 <= i < |codes| ==> a.session.memo[codes[i]].Some?)
      && var f, fs := a.outcome.frame, Remembered(a.session, codes);
         && (forall k :: k in Names ==> f[k] == Flatten(ColumnOf(fs, k)))
         && Rows(f) == Sum(RowCounts(fs))
  {
    CodesMatchTable();
    var codes := Requested(regions);
    var a := GetDict(s, regions, archives);
    ResolveAnswersRemembered(s, codes, archives, Empty());
    ConcatFromEmpty(Remembered(a.session, codes));
  }

  /** One region of a request answered, the request goes on with the
      rest. */
  lemma ResolveUnfold(s: Session, codes: seq<string>, archives: seq<Archive>, acc: Frame)
    requires Valid(s) && AllCodes(codes) && WellFormed(acc) && |codes| > 0
    requires Step(s, codes[0], archives).0.Success?
    ensures AllCodes(codes[1..])
    ensures var step := Step(s, codes[0], archives);
      Resolve(s, codes, archives, acc) == Resolve(step.1, codes[1..], archives, Append(acc, step.0.value))
  {
  }

  /** Existing cache files are never rewritten or removed. */
  lemma {:induction false} ResolveKeepsDisk(s: Session, codes: seq<string>, archives: seq<Archive>, acc: Frame)
    requires Valid(s) && AllCodes(codes) && WellFormed(acc)
    ensures var t := Resolve(s, codes, archives, acc).session;
      forall n :: n in s.disk ==> n in t.disk && t.disk[n] == s.disk[n]
    decreases |codes|
  {
    if |codes| > 0 {
      var step := Step(s, codes[0], archives);
      StepSpec(s, codes[0], archives);
      if step.0.Success? {
        ResolveUnfold(s, codes, archives, acc);
        ResolveKeepsDisk(step.1, codes[1..], archives, Append(acc, step.0.value));
        var t := Resolve(s, codes, archives, acc).session;
        forall n | n in s.disk
          ensures n in t.disk && t.disk[n] == s.disk[n]
        {
          assert n in step.1.disk && step.1.disk[n] == s.disk[n];
        }
      } else {
        assert Resolve(s, codes, archives, acc).session == s;
      }
    }
  }

  /** The cache file names of some regions. */
  function CacheNames(template: string, codes: seq<string>): (r: set<string>)
    ensures forall n :: n in r <==> exists c :: c in codes && n == ReplaceBraces(template, c)
  {
    if |codes| == 0 then {}
    else
      var rest := CacheNames(template, codes[1..]);
      assert forall c :: c in codes <==> c == codes[0] || c in codes[1..];
      {ReplaceBraces(template, codes[0])} + rest
  }

  /** Every new cache file carries the name of a requested region. */
  lemma {:induction false} ResolveDiskNames(s: Session, codes: seq<string>, archives: seq<Archive>, acc: Frame)
    requires Valid(s) && AllCodes(codes) && WellFormed(acc)
    ensures Resolve(s, codes, archives, acc).session.disk.Keys <= s.disk.Keys + CacheNames(s.template, codes)
    decreases |codes|
  {
    if |codes| > 0 {
      var step := Step(s, codes[0], archives);
      StepSpec(s, codes[0], archives);
      if step.0.Success? {
        ResolveUnfold(s, codes, archives, acc);
        ResolveDiskNames(step.1, codes[1..], archives, Append(acc, step.0.value));
        assert step.1.disk.Keys <= s.disk.Keys + {CacheName(s, codes[0])};
        assert CacheNames(s.template, codes) == {CacheName(s, codes[0])} + CacheNames(s.template, codes[1..]);
      }
    }
  }

  /** A remembered region is never forgotten or replaced. */
  lemma {:induction false} ResolveKeepsMemo(s: Session, codes: seq<string>, archives: seq<Archive>, acc: Frame)
    requires Valid(s) && AllCodes(codes) && WellFormed(acc)
    ensures var t := Resolve(s, codes, archives, acc).session;
      forall c :: c in s.memo && s.memo[c].Some? ==> c in t.memo && t.memo[c] == s.memo[c]
    decreases |codes|
  {
    if |codes| > 0 {
      var step := Step(s, codes[0], archives);
      StepSpec(s, codes[0], archives);
      if step.0.Success? {
        ResolveUnfold(s, codes, archives, acc);
        ResolveKeepsMemo(step.1, codes[1..], archives, Append(acc, step.0.value));
        var t := Resolve(s, codes, archives, acc).session;
        forall c | c in s.memo && s.memo[c].Some?
          ensures c in t.memo && t.memo[c] == s.memo[c]
        {
          assert step.1.memo[c] == s.memo[c];
        }
      } else {
        assert Resolve(s, codes, archives, acc).session == s;
      }
    }
  }

  /** Only requested regions become remembered. */
  lemma {:induction false} ResolveMemoRequested(s: Session, codes: seq<string>, archives: seq<Archive>, acc: Frame)
    requires Valid(s) && AllCodes(codes) && WellFormed(acc)
    ensures var t := Resolve(s, codes, archives, acc).session;
      forall c :: c in t.memo && t.memo[c].Some? && c in s.memo && s.memo[c].None? ==> c in codes
    decreases |codes|
  {
    if |codes| > 0 {
      var step := Step(s, codes[0], archives);
      StepSpec(s, codes[0], archives);
      if step.0.Success? {
        ResolveUnfold(s, codes, archives, acc);
        ResolveMemoRequested(step.1, codes[1..], archives, Append(acc, step.0.value));
        var t := Resolve(s, codes, archives, acc).session;
        forall c | c in t.memo && t.memo[c].Some? && c in s.memo && s.memo[c].None?
          ensures c in codes
        {
          if c != codes[0] {
            assert c in codes[1..];
          }
        }
      }
    }
  }

  /** What a request leaves in the folder: cache files are only ever
      added, each under the name of a requested region. */
  lemma GetDictCacheFiles(s: Session, regions: Option<seq<string>>, archives: seq<Archive>)
    requires Valid(s)
    ensures var t := GetDict(s, regions, archives).session;
      && (forall n :: n in s.disk ==> n in t.disk && t.disk[n] == s.disk[n])
      && t.disk.Keys <= s.disk.Keys + CacheNames(s.template, Requested(regions))
  {
    CodesMatchTable();
    var codes := Requested(regions);
    if AllCodes(codes) {
      assert GetDict(s, regions, archives) == Resolve(s, codes, archives, Empty());
      ResolveKeepsDisk(s, codes, archives, Empty());
      ResolveDiskNames(s, codes, archives, Empty());
    }
  }

  /** What a request leaves in memory: remembered regions are never
      forgotten or replaced, and only requested regions become
      remembered. */
  lemma GetDictMemory(s: Session, regions: Option<seq<string>>, archives: seq<Archive>)
    requires Valid(s)
    ensures var t := GetDict(s, regions, archives).session;
      && (forall c :: c in s.memo && s.memo[c].Some? ==> c in t.memo && t.memo[c] == s.memo[c])
      && (forall c :: c in t.memo && t.memo[c].Some? && c in s.memo && s.memo[c].None? ==> c in Requested(regions))
  {
    CodesMatchTable();
    var codes := Requested(regions);
    if AllCodes(codes) {
      assert GetDict(s, regions, archives) == Resolve(s, codes, archives, Empty());
      ResolveKeepsMemo(s, codes, archives, Empty());
      ResolveMemoRequested(s, codes, archives, Empty());
    }
  }

  /** A request that succeeds leaves every requested region remembered. */
  lemma {:induction false} ResolveRemembers(s: Session, codes: seq<string>, archives: seq<Archive>, acc: Frame)
    requires Valid(s) && AllCodes(codes) && WellFormed(acc)
    requires Resolve(s, codes, archives, acc).outcome.Data?
    ensures forall i :: 0 <= i < |codes| ==> Resolve(s, codes, archives, acc).session.memo[codes[i]].Some?
    decreases |codes|
  {
    if |codes| > 0 {
      var step := Step(s, codes[0], archives);
      StepSpec(s, codes[0], archives);
      assert step.0.Success?;
      var acc' := Append(acc, step.0.value);
      ResolveUnfold(s, codes, archives, acc);
      ResolveRemembers(step.1, codes[1..], archives, acc');
      ResolveKeepsMemo(step.1, codes[1..], archives, acc');
      var t := Resolve(s, codes, archives, acc).session;
      assert t == Resolve(step.1, codes[1..], archives, acc').session;
      assert codes[0] in step.1.memo && step.1.memo[codes[0]].Some?;
      assert t.memo[codes[0]].Some?;
      forall i | 0 <= i < |codes|
        ensures t.memo[codes[i]].Some?
      {
        if i > 0 {
          assert codes[i] == codes[1..][i - 1];
          assert t.memo[codes[1..][i - 1]].Some?;
        }
      }
    }
  }

  /** The remembered column sets of some regions, in order. */
  function Remembered(t: Session, codes: seq<string>): (fs: seq<Frame>)
    requires Valid(t) && AllCodes(codes)
    requires forall i :: 0 <= i < |codes| ==> t.memo[codes[i]].Some?
    ensures |fs| == |codes| && AllShaped(fs, Names)
  {
    seq(|codes|, i requires 0 <= i < |codes| => t.memo[codes[i]].value)
  }

  /** A request that succeeds answers, in request order, exactly what it
      leaves remembered for its regions. */
  lemma {:induction false} ResolveAnswersRemembered(s: Session, codes: seq<string>, archives: seq<Archive>, acc: Frame)
    requires Valid(s) && AllCodes(codes) && WellFormed(acc)
    requires Resolve(s, codes, archives, acc).outcome.Data?
    ensures var a := Resolve(s, codes, archives, acc);
      && (forall i :: 0 <= i < |codes| ==> a.session.memo[codes[i]].Some?)
      && a.outcome.frame == ConcatFrom(acc, Remembered(a.session, codes))
    decreases |codes|
  {
    ResolveRemembers(s, codes, archives, acc);
    if |codes| > 0 {
      var step := Step(s, codes[0], archives);
      RememberedFirst(s, codes, archives, acc);
      var acc' := Append(acc, step.0.value);
      ResolveAnswersRemembered(step.1, codes[1..], archives, acc');
    }
  }

  /** The first region of a request that succeeds is remembered as its
      step answered it, and the request goes on with the rest. */
  lemma RememberedFirst(s: Session, codes: seq<string>, archives: seq<Archive>, acc: Frame)
    requires Valid(s) && AllCodes(codes) && WellFormed(acc) && |codes| > 0
    requires Resolve(s, codes, archives, acc).outcome.Data?
    requires forall i :: 0 <= i < |codes| ==> Resolve(s, codes, archives, acc).session.memo[codes[i]].Some?
    ensures var step, t := Step(s, codes[0], archives), Resolve(s, codes, archives, acc).session;
      && step.0.Success? && AllCodes(codes[1..])
      && Resolve(s, codes, archives, acc) == Resolve(step.1, codes[1..], archives, Append(acc, step.0.value))
      && Remembered(t, codes) == [step.0.value] + Remembered(t, codes[1..])
  {
    var step := Step(s, codes[0], archives);
    StepSpec(s, codes[0], archives);
    ResolveUnfold(s, codes, archives, acc);
    ResolveKeepsMemo(step.1, codes[1..], archives, Append(acc, step.0.value));
    var t := Resolve(s, codes, archives, acc).session;
    assert t == Resolve(step.1, codes[1..], archives, Append(acc, step.0.value)).session;
    assert codes[0] in step.1.memo && step.1.memo[codes[0]] == Some(step.0.value);
    assert t.memo[codes[0]] == Some(step.0.value);
    RememberedCons(t, codes);
  }

  lemma RememberedCons(t: Session, codes: seq<string>)
    requires Valid(t) && AllCodes(codes) && |codes| > 0
    requires forall i :: 0 <= i < |codes| ==> t.memo[codes[i]].Some?
    ensures Remembered(t, codes) == [t.memo[codes[0]].value] + Remembered(t, codes[1..])
  {
    var fs := Remembered(t, codes);
    assert fs[1..] == Remembered(t, codes[1..]);
  }

  /** A request whose regions are all remembered answers from memory and
      changes nothing. */
  lemma {:induction false} ResolveFromMemory(s: Session, codes: seq<string>, archives: seq<Archive>, acc: Frame)
    requires Valid(s) && AllCodes(codes) && WellFormed(acc)
    requires forall i :: 0 <= i < |codes| ==> s.memo[codes[i]].Some?
    ensures Resolve(s, codes, archives, acc) == Answer(Data(ConcatFrom(acc, Remembered(s, codes))), s)
    decreases |codes|
  {
    if |codes| > 0 {
      var acc' := Append(acc, s.memo[codes[0]].value);
      assert Step(s, codes[0], archives) == (Success(s.memo[codes[0]].value), s);
      assert Resolve(s, codes, archives, acc) == Resolve(s, codes[1..], archives, acc');
      ResolveFromMemory(s, codes[1..], archives, acc');
      RememberedCons(s, codes);
    }
  }

  /** Repeating a request that succeeded gives the same column set and
      leaves the session as the first request left it, whatever the
      template. */
  lemma GetDictIdempotent(s: Session, regions: Option<seq<string>>, archives: seq<Archive>)
    requires Valid(s)
    requires GetDict(s, regions, archives).outcome.Data?
    ensures var a := GetDict(s, regions, archives);
      GetDict(a.session, regions, archives) == a
  {
    CodesMatchTable();
    var codes := Requested(regions);
    assert AllCodes(codes);
    ResolveAnswersRemembered(s, codes, archives, Empty());
    var a := GetDict(s, regions, archives);
    ResolveFromMemory(a.session, codes, archives, Empty());
  }
}
