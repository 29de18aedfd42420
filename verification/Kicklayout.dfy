/**
  The Kicklayout parser of boot_aos_zipkick() (boot_aos.c): what a layout file
  says, line by line, and the in-place parser that does it.
 */
module Kicklayout {
  import opened Bits
  import opened Options
  import opened Rounding
  import opened CStrings
  import opened ByteMemory
  import opened AosList
  import opened Kickstart

  const LF: byte := 10
  const LABEL: seq<byte> := [76, 65, 66, 69, 76]
  const EXEC: seq<byte> := [69, 88, 69, 67]
  const MODULE: seq<byte> := [77, 79, 68, 85, 76, 69]

  // ----- text ----------------------------------------------------------------

  predicate Blank(c: byte) {
    c == 32 || c == 9
  }

  predicate Space(c: byte) {
    Blank(c) || c == 13
  }

  function SkipSpace(s: seq<byte>): seq<byte> {
    if s != [] && Space(s[0]) then SkipSpace(s[1..]) else s
  }

  function SkipBlank(s: seq<byte>): seq<byte> {
    if s != [] && Blank(s[0]) then SkipBlank(s[1..]) else s
  }

  function DropSpace(s: seq<byte>): seq<byte> {
    if s != [] && Space(s[|s| - 1]) then DropSpace(s[..|s| - 1]) else s
  }

  function Trim(s: seq<byte>): seq<byte> {
    DropSpace(SkipSpace(s))
  }

  function LineLen(s: seq<byte>): (n: nat)
    ensures n <= |s| && LF !in s[..n] && (n < |s| ==> s[n] == LF)
  {
    if s == [] || s[0] == LF then 0 else 1 + LineLen(s[1..])
  }

  /** Lines end at a line feed; the last one may lack it. */
  function Lines(s: seq<byte>): seq<seq<byte>> {
    if s == [] then []
    else
      var n := LineLen(s);
      [s[..n]] + (if n < |s| then Lines(s[n + 1..]) else [])
  }

  predicate Ignorable(t: seq<byte>) {
    t == [] || t[0] == 59
  }

  /** KEYWORD(): the word and a blank after it. */
  predicate Keyword(t: seq<byte>, word: seq<byte>) {
    |t| > |word| && t[..|word|] == word && Blank(t[|word|])
  }

  function Arg(t: seq<byte>, word: seq<byte>): seq<byte>
    requires Keyword(t, word)
  {
    SkipBlank(t[|word|..])
  }

  // ----- what a layout says --------------------------------------------------

  datatype Boot = Booted(k: Kick) | BadLine(n: nat) | LoadFailed | NoMemory | NoConfig

  datatype Line = Line(no: nat, text: seq<byte>)

  /** The trimmed lines that are neither blank nor comments, numbered from l. */
  function Significant(ls: seq<seq<byte>>, l: nat): seq<Line> {
    if ls == [] then []
    else
      var t := Trim(ls[0]);
      (if Ignorable(t) then [] else [Line(l, t)]) + Significant(ls[1..], l + 1)
  }

  /** The lines after the n-th LABEL. */
  function AfterLabel(ss: seq<Line>, n: nat): Option<seq<Line>>
    requires n >= 1
  {
    if ss == [] then None
    else if !Keyword(ss[0].text, LABEL) then AfterLabel(ss[1..], n)
    else if n == 1 then Some(ss[1..])
    else AfterLabel(ss[1..], n - 1)
  }

  function UpToLabel(ss: seq<Line>): seq<Line> {
    if ss == [] || Keyword(ss[0].text, LABEL) then [] else [ss[0]] + UpToLabel(ss[1..])
  }

  /** The keyword a section's i-th line must have. */
  function Word(i: nat): seq<byte> {
    if i == 0 then EXEC else MODULE
  }

  /** The lines of a section, after the modules of k are loaded. */
  function Process(b: Board, sec: seq<Line>, k: Kick): Boot {
    if sec == [] then (if k.mods == [] then NoConfig else Booted(k))
    else
      var word := Word(|k.mods|);
      if !Keyword(sec[0].text, word) then BadLine(sec[0].no)
      else
        match Load(b, k, Arg(sec[0].text, word))
        case None => LoadFailed
        case Some(k') => Process(b, sec[1..], k')
  }

  /** Booting the config-th LABEL section of a layout. */
  function BootFrom(b: Board, layout: seq<byte>, config: nat): Boot
    requires config >= 1
  {
    match AfterLabel(Significant(Lines(layout), 1), config)
    case None => NoConfig
    case Some(rest) =>
      if !b.Claim(KICKLIST_ADDR, LIST_SIZE) then NoMemory
      else Process(b, UpToLabel(rest), START)
  }

  /** The image that a section's EXEC line names ends below the kicklist area. */
  predicate SectionFits(b: Board, sec: seq<Line>) {
    sec != [] && Keyword(sec[0].text, EXEC) ==>
      var path := Arg(sec[0].text, EXEC);
      path in b.files ==> b.execAddr + |b.files[path]| <= KICKLIST_ADDR
  }

  predicate ExecFits(b: Board, layout: seq<byte>, config: nat)
    requires config >= 1
  {
    match AfterLabel(Significant(Lines(layout), 1), config)
    case None => true
    case Some(rest) => SectionFits(b, UpToLabel(rest))
  }

  // ----- what Process decides ------------------------------------------------

  /** Lines of a section from position d on are EXEC first, then MODULE. */
  ghost predicate Proper(sec: seq<Line>, d: nat) {
    forall i :: 0 <= i < |sec| ==> Keyword(sec[i].text, Word(d + i))
  }

  ghost function Paths(sec: seq<Line>, d: nat): (ps: seq<seq<byte>>)
    requires Proper(sec, d)
    ensures |ps| == |sec|
  {
    seq(|sec|, i requires 0 <= i < |sec| => Arg(sec[i].text, Word(d + i)))
  }

  function LoadFrom(b: Board, k: Kick, paths: seq<seq<byte>>): Option<Kick>
    decreases paths
  {
    if paths == [] then Some(k)
    else
      match Load(b, k, paths[0])
      case None => None
      case Some(k') => LoadFrom(b, k', paths[1..])
  }

  lemma LoadCounts(b: Board, k: Kick, path: seq<byte>)
    requires Load(b, k, path).Some?
    ensures |Load(b, k, path).value.mods| == |k.mods| + 1
  {
    hide RoundUp, BaseName;
  }

  lemma ProperTail(sec: seq<Line>, d: nat)
    requires sec != []
    ensures Proper(sec, d) <==> Keyword(sec[0].text, Word(d)) && Proper(sec[1..], d + 1)
    ensures Proper(sec, d) ==> Paths(sec, d) == [Arg(sec[0].text, Word(d))] + Paths(sec[1..], d + 1)
  {
    hide Keyword, Arg, Word;
    if Keyword(sec[0].text, Word(d)) && Proper(sec[1..], d + 1) {
      forall i | 0 <= i < |sec|
        ensures Keyword(sec[i].text, Word(d + i))
      {
        if i > 0 {
          assert sec[i] == sec[1..][i - 1];
        }
      }
    }
    if Proper(sec, d) {
      forall i | 0 <= i < |sec[1..]|
        ensures Keyword(sec[1..][i].text, Word(d + 1 + i))
      {
        assert sec[1..][i] == sec[i + 1];
      }
    }
  }

  /** A section boots exactly when every line has the keyword due and every
      load succeeds, and then with those loads in order. */
  lemma {:induction false} ProcessBoots(b: Board, sec: seq<Line>, k: Kick, k': Kick)
    ensures Process(b, sec, k) == Booted(k') <==>
            && Proper(sec, |k.mods|) && (sec != [] || k.mods != [])
            && LoadFrom(b, k, Paths(sec, |k.mods|)) == Some(k')
    decreases sec
  {
    hide Load, Keyword, Arg, Word;
    if sec == [] {
    } else {
      var d := |k.mods|;
      ProperTail(sec, d);
      if Keyword(sec[0].text, Word(d)) {
        var r := Load(b, k, Arg(sec[0].text, Word(d)));
        if r.Some? {
          LoadCounts(b, k, Arg(sec[0].text, Word(d)));
          ProcessBoots(b, sec[1..], r.value, k');
          if Proper(sec, d) {
            assert Paths(sec, d)[1..] == Paths(sec[1..], d + 1);
          }
        }
      }
    }
  }

  /** A line is reported exactly when it is the first without the keyword due
      and every line before it loads. */
  lemma {:induction false} ProcessReports(b: Board, sec: seq<Line>, k: Kick, n: nat)
    ensures Process(b, sec, k) == BadLine(n) <==> HasOffender(b, sec, k, n)
    decreases sec
  {
    hide Load, Keyword, Arg, Word;
    if sec == [] {
      assert forall i: nat :: !Offends(b, sec, k, i, n);
    } else {
      var d := |k.mods|;
      if !Keyword(sec[0].text, Word(d)) {
        assert sec[..0] == [];
        if sec[0].no == n {
          assert Offends(b, sec, k, 0, n);
        }
        forall i: nat | Offends(b, sec, k, i, n) ensures i == 0 {
        }
      } else {
        var r := Load(b, k, Arg(sec[0].text, Word(d)));
        if r.Some? {
          LoadCounts(b, k, Arg(sec[0].text, Word(d)));
          ProcessReports(b, sec[1..], r.value, n);
        }
        forall i: nat
          ensures Offends(b, sec, k, i, n) <==> i > 0 && r.Some? && Offends(b, sec[1..], r.value, i - 1, n)
        {
          OffendsTail(b, sec, k, i, n);
        }
        if r.Some? && exists i: nat :: Offends(b, sec[1..], r.value, i, n) {
          var i: nat :| Offends(b, sec[1..], r.value, i, n);
          assert Offends(b, sec, k, i + 1, n);
        }
      }
    }
  }

  ghost predicate Offends(b: Board, sec: seq<Line>, k: Kick, i: nat, n: nat) {
    && i < |sec| && sec[i].no == n && !Keyword(sec[i].text, Word(|k.mods| + i))
    && Proper(sec[..i], |k.mods|) && LoadFrom(b, k, Paths(sec[..i], |k.mods|)).Some?
  }

  ghost predicate HasOffender(b: Board, sec: seq<Line>, k: Kick, n: nat) {
    exists i: nat :: Offends(b, sec, k, i, n)
  }

  lemma OffendsTail(b: Board, sec: seq<Line>, k: Kick, i: nat, n: nat)
    requires sec != [] && Keyword(sec[0].text, Word(|k.mods|))
    ensures var r := Load(b, k, Arg(sec[0].text, Word(|k.mods|)));
            Offends(b, sec, k, i, n) <==> i > 0 && r.Some? && Offends(b, sec[1..], r.value, i - 1, n)
  {
    hide Load, Keyword, Arg, Word;
    var d, a := |k.mods|, Arg(sec[0].text, Word(|k.mods|));
    if 0 < i <= |sec| {
      assert sec[..i][1..] == sec[1..][..i - 1];
      ProperTail(sec[..i], d);
      var r := Load(b, k, a);
      if r.Some? {
        LoadCounts(b, k, a);
      }
      if Proper(sec[..i], d) {
        assert Paths(sec[..i], d)[0] == a;
        assert Paths(sec[..i], d)[1..] == Paths(sec[1..][..i - 1], d + 1);
      }
    }
  }

  /** Loading in order from the start is the run whose layout is known. */
  lemma {:induction false} LoadFromIsLoadAll(b: Board, ps: seq<seq<byte>>, qs: seq<seq<byte>>)
    requires LoadAll(b, ps).Some?
    ensures LoadFrom(b, LoadAll(b, ps).value, qs) == LoadAll(b, ps + qs)
    decreases |qs|
  {
    hide Load;
    if qs == [] {
      assert ps + qs == ps;
    } else {
      var ps' := ps + [qs[0]];
      assert ps'[..|ps|] == ps;
      assert ps' + qs[1..] == ps + qs;
      if LoadAll(b, ps').Some? {
        LoadFromIsLoadAll(b, ps', qs[1..]);
      } else {
        FailureStays(b, ps', qs[1..]);
      }
    }
  }

  lemma {:induction false} FailureStays(b: Board, ps: seq<seq<byte>>, qs: seq<seq<byte>>)
    requires LoadAll(b, ps).None?
    ensures LoadAll(b, ps + qs).None?
    decreases |qs|
  {
    hide Load;
    if qs == [] {
      assert ps + qs == ps;
    } else {
      var n := |qs| - 1;
      FailureStays(b, ps, qs[..n]);
      assert (ps + qs)[..|ps| + n] == ps + qs[..n];
    }
  }

  /** A layout boots exactly with the EXEC and then MODULE paths of the
      config-th LABEL section, loaded in order. */
  lemma BootsExactly(b: Board, layout: seq<byte>, config: nat, k: Kick)
    requires config >= 1
    ensures BootFrom(b, layout, config) == Booted(k) <==>
            var rest := AfterLabel(Significant(Lines(layout), 1), config);
            && rest.Some? && b.Claim(KICKLIST_ADDR, LIST_SIZE)
            && var sec := UpToLabel(rest.value);
               sec != [] && Proper(sec, 0) && LoadAll(b, Paths(sec, 0)) == Some(k)
  {
    hide Lines, Significant, AfterLabel, UpToLabel, Process, LoadFrom, Proper, Paths;
    var rest := AfterLabel(Significant(Lines(layout), 1), config);
    if rest.Some? {
      var sec := UpToLabel(rest.value);
      ProcessBoots(b, sec, START, k);
      if Proper(sec, 0) {
        LoadFromIsLoadAll(b, [], Paths(sec, 0));
        assert [] + Paths(sec, 0) == Paths(sec, 0);
      }
    }
  }

  /** A line number is reported exactly when the section is there and that line
      is its first one without the keyword due, all before it having loaded. */
  lemma ReportsExactly(b: Board, layout: seq<byte>, config: nat, n: nat)
    requires config >= 1
    ensures BootFrom(b, layout, config) == BadLine(n) <==>
            var rest := AfterLabel(Significant(Lines(layout), 1), config);
            && rest.Some? && b.Claim(KICKLIST_ADDR, LIST_SIZE)
            && HasOffender(b, UpToLabel(rest.value), START, n)
  {
    hide Lines, Significant, AfterLabel, UpToLabel, Process, HasOffender;
    var rest := AfterLabel(Significant(Lines(layout), 1), config);
    if rest.Some? {
      ProcessReports(b, UpToLabel(rest.value), START, n);
    }
  }

  /** Numbers of significant lines are those of the file's lines. */
  lemma {:induction false} SignificantNumbers(ls: seq<seq<byte>>, l: nat, i: nat)
    requires i < |Significant(ls, l)|
    ensures var t := Significant(ls, l)[i];
            l <= t.no < l + |ls| && t.text == Trim(ls[t.no - l]) && !Ignorable(t.text)
    decreases ls
  {
    hide Trim;
    var rest := Significant(ls[1..], l + 1);
    if Ignorable(Trim(ls[0])) {
      assert Significant(ls, l) == rest;
      SignificantNumbers(ls[1..], l + 1, i);
    } else if i > 0 {
      assert Significant(ls, l)[i] == rest[i - 1];
      SignificantNumbers(ls[1..], l + 1, i - 1);
    }
  }

  /** What a boot leaves in memory does not overlap, exactly when its first
      module ends below the kicklist area. */
  lemma BootedLayout(b: Board, layout: seq<byte>, config: nat, k: Kick)
    requires config >= 1 && BootFrom(b, layout, config) == Booted(k) && b.execAddr < KICKLIST_ADDR
    ensures k.mods != []
    ensures AllDisjoint(Regions(k.mods)) <==> b.execAddr + |k.mods[0].bytes| <= KICKLIST_ADDR
  {
    hide BootFrom, LoadAll, Regions, AllDisjoint, Laid, Proper, Paths, UpToLabel, AfterLabel, Significant;
    BootsExactly(b, layout, config, k);
    var paths := Paths(UpToLabel(AfterLabel(Significant(Lines(layout), 1), config).value), 0);
    RunLayout(b, paths);
    RunIsLaid(b, paths);
  }

  /** Of a boot, the EXEC line's image fits exactly when the first module's does. */
  lemma BootedFits(b: Board, layout: seq<byte>, config: nat, k: Kick)
    requires config >= 1 && BootFrom(b, layout, config) == Booted(k)
    ensures Laid(b, k) && k.mods != [] && (ExecFits(b, layout, config) <==> Fits(b, k))
  {
    hide BootFrom, LoadAll, Laid, AfterLabel, Significant, Keyword, Arg, UpToLabel;
    BootsExactly(b, layout, config, k);
    var sec := UpToLabel(AfterLabel(Significant(Lines(layout), 1), config).value);
    RunIsLaid(b, Paths(sec, 0));
    assert Keyword(sec[0].text, Word(0)) && Paths(sec, 0)[0] == Arg(sec[0].text, EXEC);
  }

  /** After a boot memory holds the list, structs, names and images, for all
      contents of the first image, exactly when the EXEC line's image ends below
      the kicklist area. */
  lemma BootedMemory(b: Board, memory: Memory, layout: seq<byte>, config: nat, k: Kick)
    requires config >= 1 && BootFrom(b, layout, config) == Booted(k) && b.execAddr < KICKLIST_ADDR
    ensures k.mods != []
    ensures ExecFits(b, layout, config) <==>
            forall bytes: seq<byte> :: |bytes| == |k.mods[0].bytes| ==> HoldsWith(memory, k.mods, bytes)
  {
    hide BootFrom, Laid, ExecFits, HoldsWith, Fits;
    BootedFits(b, layout, config, k);
    MemoryExact(b, memory, k);
  }

  // ----- the parser, line by line --------------------------------------------

  function Finish(kick: Option<Kick>): Boot {
    if kick.None? || kick.value.mods == [] then NoConfig else Booted(kick.value)
  }

  /** What a line that is not ignored does: end the run, or go on. */
  datatype Effect = Stop(r: Boot) | Go(c: nat, kick: Option<Kick>)

  /** The body of the loop of boot_aos_zipkick() for the text t of line l, with
      c labels seen, and the list once the label was found. */
  function Act(b: Board, config: nat, t: seq<byte>, l: nat, c: nat, kick: Option<Kick>): (e: Effect)
    requires c == config ==> kick.Some?
    ensures e.Go? && e.c == config ==> e.kick.Some?
  {
    if Keyword(t, LABEL) then
      if c + 1 == config then
        if !b.Claim(KICKLIST_ADDR, LIST_SIZE) then Stop(NoMemory) else Go(c + 1, Some(START))
      else if c + 1 > config then Stop(Finish(kick))
      else Go(c + 1, kick)
    else if c != config then Go(c, kick)
    else
      var word := if kick.value.mods == [] then EXEC else MODULE;
      if !Keyword(t, word) then Stop(BadLine(l))
      else
        match Load(b, kick.value, Arg(t, word))
        case None => Stop(LoadFailed)
        case Some(k) => Go(c, Some(k))
  }

  /** The loop on lines. */
  function Step(b: Board, config: nat, ls: seq<seq<byte>>, l: nat, c: nat, kick: Option<Kick>): Boot
    requires c == config ==> kick.Some?
    decreases ls
  {
    if ls == [] then Finish(kick)
    else if Ignorable(Trim(ls[0])) then Step(b, config, ls[1..], l + 1, c, kick)
    else
      match Act(b, config, Trim(ls[0]), l, c, kick)
      case Stop(r) => r
      case Go(c', kick') => Step(b, config, ls[1..], l + 1, c', kick')
  }

  lemma {:induction false} StepInSection(b: Board, config: nat, ls: seq<seq<byte>>, l: nat, k: Kick)
    ensures Step(b, config, ls, l, config, Some(k)) == Process(b, UpToLabel(Significant(ls, l)), k)
    decreases ls
  {
    hide Trim, Keyword, Arg, Load;
    if ls == [] {
    } else {
      var t, ss := Trim(ls[0]), Significant(ls[1..], l + 1);
      if Ignorable(t) {
        assert Significant(ls, l) == ss;
        StepInSection(b, config, ls[1..], l + 1, k);
      } else {
        assert Significant(ls, l)[0] == Line(l, t) && Significant(ls, l)[1..] == ss;
        if !Keyword(t, LABEL) {
          var sec := UpToLabel(Significant(ls, l));
          assert sec[0] == Line(l, t) && sec[1..] == UpToLabel(ss);
          var word := Word(|k.mods|);
          if Keyword(t, word) && Load(b, k, Arg(t, word)).Some? {
            StepInSection(b, config, ls[1..], l + 1, Load(b, k, Arg(t, word)).value);
          }
        }
      }
    }
  }

  lemma {:induction false} StepBefore(b: Board, config: nat, ls: seq<seq<byte>>, l: nat, c: nat)
    requires c < config
    ensures Step(b, config, ls, l, c, None) ==
            match AfterLabel(Significant(ls, l), config - c)
            case None => NoConfig
            case Some(rest) =>
              if !b.Claim(KICKLIST_ADDR, LIST_SIZE) then NoMemory else Process(b, UpToLabel(rest), START)
    decreases ls
  {
    hide Trim, Keyword, Load, Process, UpToLabel;
    if ls == [] {
    } else {
      var t, ss := Trim(ls[0]), Significant(ls[1..], l + 1);
      if Ignorable(t) {
        assert Significant(ls, l) == ss;
        StepBefore(b, config, ls[1..], l + 1, c);
      } else {
        assert Significant(ls, l)[0] == Line(l, t) && Significant(ls, l)[1..] == ss;
        if !Keyword(t, LABEL) {
          StepBefore(b, config, ls[1..], l + 1, c);
        } else if c + 1 == config {
          StepInSection(b, config, ls[1..], l + 1, START);
        } else {
          StepBefore(b, config, ls[1..], l + 1, c + 1);
        }
      }
    }
  }

  // ----- the first image, line by line ---------------------------------------

  /** The first image ends below the kicklist area, whether it is loaded already
      or named in the lines that are left. */
  ghost predicate RestFits(b: Board, config: nat, ls: seq<seq<byte>>, l: nat, c: nat, kick: Option<Kick>)
    requires c <= config && (kick.Some? <==> c == config)
  {
    if kick.Some? then
      && Laid(b, kick.value) && Fits(b, kick.value)
      && (kick.value.mods == [] ==> SectionFits(b, UpToLabel(Significant(ls, l))))
    else
      match AfterLabel(Significant(ls, l), config - c)
      case None => true
      case Some(rest) => SectionFits(b, UpToLabel(rest))
  }

  lemma RestFitsIgnored(b: Board, config: nat, ls: seq<seq<byte>>, l: nat, c: nat, kick: Option<Kick>)
    requires c <= config && (kick.Some? <==> c == config) && RestFits(b, config, ls, l, c, kick)
    requires ls != [] && Ignorable(Trim(ls[0]))
    ensures RestFits(b, config, ls[1..], l + 1, c, kick)
  {
    hide Trim, Laid, Fits, SectionFits;
    assert Significant(ls, l) == Significant(ls[1..], l + 1);
  }

  lemma RestFitsActed(b: Board, config: nat, ls: seq<seq<byte>>, l: nat, c: nat, kick: Option<Kick>)
    requires c <= config && (kick.Some? <==> c == config) && RestFits(b, config, ls, l, c, kick)
    requires ls != [] && !Ignorable(Trim(ls[0])) && Act(b, config, Trim(ls[0]), l, c, kick).Go?
    ensures var e := Act(b, config, Trim(ls[0]), l, c, kick);
            e.c <= config && (e.kick.Some? <==> e.c == config) && RestFits(b, config, ls[1..], l + 1, e.c, e.kick)
  {
    hide Trim, Laid, Keyword, Arg, Load, Act;
    var t, ss := Trim(ls[0]), Significant(ls[1..], l + 1);
    assert Significant(ls, l)[0] == Line(l, t) && Significant(ls, l)[1..] == ss;
    ActCases(b, config, t, l, c, kick);
    if Keyword(t, LABEL) {
      StartIsLaid(b);
    } else if c == config {
      var k := kick.value;
      var word := if k.mods == [] then EXEC else MODULE;
      LoadKeepsLaid(b, k, Arg(t, word));
      LoadKeepsFirst(b, k, Arg(t, word));
    }
  }

  lemma LoadKeepsFirst(b: Board, k: Kick, path: seq<byte>)
    requires Load(b, k, path).Some?
    ensures var k' := Load(b, k, path).value;
            && k'.mods != []
            && if k.mods == [] then path in b.files && k'.mods[0].bytes == b.files[path]
               else k'.mods[0] == k.mods[0]
  {
    hide RoundUp, BaseName;
  }

  // ----- the parser in the buffer --------------------------------------------

  /** The lines from position p of a layout on. */
  function From(layout: seq<byte>, p: nat): seq<seq<byte>> {
    if p < |layout| then Lines(layout[p..]) else []
  }

  /** A line of the layout from p to e. */
  ghost predicate LineAt(layout: seq<byte>, p: nat, e: nat) {
    p <= e <= |layout| && LF !in layout[p..e] && (e < |layout| ==> layout[e] == LF)
  }

  lemma {:induction false} LineLenIs(s: seq<byte>, n: nat)
    requires n <= |s| && LF !in s[..n] && (n < |s| ==> s[n] == LF)
    ensures LineLen(s) == n
  {
    if n > 0 {
      assert s[..n][0] == s[0];
      assert s[1..][..n - 1] == s[..n][1..];
      LineLenIs(s[1..], n - 1);
    }
  }

  lemma FirstLine(layout: seq<byte>, p: nat, e: nat)
    requires p < |layout| && LineAt(layout, p, e)
    ensures From(layout, p) != [] && From(layout, p)[0] == layout[p..e]
    ensures From(layout, p)[1..] == From(layout, e + 1)
  {
    var s := layout[p..];
    assert s[..e - p] == layout[p..e];
    LineLenIs(s, e - p);
    if e < |layout| {
      assert s[e - p + 1..] == layout[e + 1..];
      assert e + 1 == |layout| ==> layout[e + 1..] == [];
      assert ([s[..e - p]] + Lines(layout[e + 1..]))[1..] == Lines(layout[e + 1..]);
    }
  }

  /** The buffer still holds the layout, its added line feed and its NUL from p on. */
  ghost predicate Unread(buf: seq<byte>, layout: seq<byte>, p: nat) {
    && |buf| == |layout| + 2 && Text(layout)
    && forall i :: p <= i < |buf| ==> buf[i] == (layout + [LF, 0])[i]
  }

  lemma {:induction false} SkipSpaceIs(s: seq<byte>, n: nat)
    requires n <= |s| && (forall i :: 0 <= i < n ==> Space(s[i])) && (n < |s| ==> !Space(s[n]))
    ensures SkipSpace(s) == s[n..]
  {
    if n > 0 {
      SkipSpaceIs(s[1..], n - 1);
    }
  }

  lemma {:induction false} DropSpaceIs(s: seq<byte>, n: nat)
    requires n <= |s| && (forall i :: n <= i < |s| ==> Space(s[i])) && (n > 0 ==> !Space(s[n - 1]))
    ensures DropSpace(s) == s[..n]
    decreases |s|
  {
    if n < |s| {
      DropSpaceIs(s[..|s| - 1], n);
      assert s[..|s| - 1][..n] == s[..n];
    } else {
      assert s[..n] == s;
    }
  }

  /** Skipping blanks at the start of a line. */
  method SkipSpaces(buf: array<byte>, p: nat, ghost layout: seq<byte>) returns (q: nat)
    requires Unread(buf[..], layout, p) && p < |layout|
    ensures p <= q <= |layout|
    ensures forall i :: p <= i < q ==> Space(layout[i])
    ensures q < |layout| ==> !Space(layout[q])
  {
    q := p;
    while Space(buf[q])
      invariant p <= q <= |layout|
      invariant forall i :: p <= i < q ==> Space(layout[i])
      decreases |layout| - q
    {
      assert buf[q] == (layout + [LF, 0])[q];
      q := q + 1;
    }
    assert buf[..][q] == (layout + [LF, 0])[q];
  }

  /** strchr(p, '\n'). */
  method FindLineFeed(buf: array<byte>, p: nat, ghost layout: seq<byte>) returns (e: nat)
    requires Unread(buf[..], layout, p) && p <= |layout|
    ensures LineAt(layout, p, e)
  {
    e := p;
    while buf[e] != LF
      invariant p <= e <= |layout| && LF !in layout[p..e]
      decreases |layout| - e
    {
      assert buf[..][e] == (layout + [LF, 0])[e];
      assert layout[p..e + 1] == layout[p..e] + [layout[e]];
      e := e + 1;
    }
    assert buf[..][e] == (layout + [LF, 0])[e];
  }

  /** Where a line ends without its trailing blanks. */
  method TrimEnd(buf: array<byte>, p: nat, e: nat) returns (q: nat)
    requires p < e <= buf.Length && !Space(buf[p])
    ensures p < q <= e && !Space(buf[q - 1])
    ensures forall i :: q <= i < e ==> Space(buf[i])
  {
    q := e - 1;
    while q > p && Space(buf[q])
      invariant p <= q < e
      invariant forall i :: q < i < e ==> Space(buf[i])
    {
      q := q - 1;
    }
    q := q + 1;
  }

  lemma TrimIs(layout: seq<byte>, p: nat, a: nat, q: nat, e: nat)
    requires p <= a <= q <= e <= |layout|
    requires forall i :: p <= i < a ==> Space(layout[i])
    requires a < e ==> a < q && !Space(layout[a]) && !Space(layout[q - 1])
    requires forall i :: q <= i < e ==> Space(layout[i])
    ensures Trim(layout[p..e]) == layout[a..q]
  {
    var line := layout[p..e];
    SkipSpaceIs(line, a - p);
    assert line[a - p..] == layout[a..e];
    DropSpaceIs(layout[a..e], q - a);
    assert layout[a..e][..q - a] == layout[a..q];
  }

  lemma LineStartsAt(layout: seq<byte>, p: nat, a: nat, e: nat)
    requires p <= a && LineAt(layout, a, e) && forall i :: p <= i < a ==> Space(layout[i])
    ensures LineAt(layout, p, e)
  {
    assert layout[p..e] == layout[p..a] + layout[a..e];
  }

  /** One line of the loop up to the test for its keyword: NULs are written over
      its line feed and after its text, and the rest is left alone. */
  method ReadLine(buf: array<byte>, p: nat, ghost layout: seq<byte>) returns (ignored: bool, t: seq<byte>, end: nat)
    requires Unread(buf[..], layout, p) && p < |layout|
    modifies buf
    ensures LineAt(layout, p, end) && Unread(buf[..], layout, end + 1)
    ensures ignored <==> Ignorable(Trim(layout[p..end]))
    ensures !ignored ==> t == Trim(layout[p..end])
  {
    hide Trim, StrLen;
    t := [];
    var a := SkipSpaces(buf, p, layout);
    end := FindLineFeed(buf, a, layout);
    LineStartsAt(layout, p, a, end);
    SameText(buf[..], layout, p, end);
    if buf[a] == 59 || buf[a] == LF {
      ignored := true;
      IgnoredLine(layout, p, a, end);
      return;
    }
    var q := TrimEnd(buf, a, end);
    TrimIs(layout, p, a, q, end);
    buf[end] := 0;
    if q < end {
      buf[q] := 0;
    }
    assert buf[..][a..q] == layout[a..q];
    StrLenIs(buf[..], a, layout[a..q]);
    t := CString(buf[..], a);
    ignored := false;
  }

  lemma SameText(buf: seq<byte>, layout: seq<byte>, p: nat, e: nat)
    requires Unread(buf, layout, p) && p <= e <= |layout|
    ensures forall i :: p <= i < e ==> buf[i] == layout[i]
    ensures buf[e] == if e < |layout| then layout[e] else LF
  {
    var text := layout + [LF, 0];
    assert forall i :: 0 <= i < |layout| ==> text[i] == layout[i];
  }

  lemma IgnoredLine(layout: seq<byte>, p: nat, a: nat, e: nat)
    requires p <= a <= e && LineAt(layout, p, e)
    requires forall i :: p <= i < a ==> Space(layout[i])
    requires a == e || layout[a] == 59
    ensures Ignorable(Trim(layout[p..e]))
  {
    if a == e {
      TrimIs(layout, p, a, a, e);
    } else {
      var q := LastText(layout, a, e);
      TrimIs(layout, p, a, q, e);
    }
  }

  lemma {:induction false} LastText(layout: seq<byte>, a: nat, e: nat) returns (q: nat)
    requires a < e <= |layout| && !Space(layout[a])
    ensures a < q <= e && !Space(layout[q - 1]) && forall i :: q <= i < e ==> Space(layout[i])
    decreases e
  {
    if Space(layout[e - 1]) {
      q := LastText(layout, a, e - 1);
    } else {
      q := e;
    }
  }

  ghost function KickOf(loader: Loader?): Option<Kick>
    reads loader
  {
    if loader == null then None else Some(loader.kick)
  }

  datatype Next = Continue | Break | Return(r: Boot)

  /** Labels seen, the list once the label was found, and memory. */
  ghost predicate ListOk(kicklist: Loader?, b: Board, memory: Memory, config: nat, c: nat)
    reads kicklist, if kicklist == null then {} else {kicklist.ram}
  {
    && c <= config && (kicklist != null <==> c == config)
    && (kicklist != null ==> kicklist.b == b && kicklist.start == memory && kicklist.Valid())
  }

  ghost predicate KickOk(kicklist: Loader?)
    reads kicklist
  {
    kicklist != null ==> Laid(kicklist.b, kicklist.kick) && Fits(kicklist.b, kicklist.kick)
  }

  /** The body of the loop for a line that is not ignored. */
  method ActOn(b: Board, memory: Memory, config: nat, t: seq<byte>, l: nat, c: nat, kicklist: Loader?)
    returns (next: Next, c': nat, kicklist': Loader?)
    requires ListOk(kicklist, b, memory, config, c) && b.execAddr != NULL
    modifies kicklist, if kicklist == null then {} else {kicklist.ram}
    ensures kicklist' == kicklist || (kicklist' != null && fresh(kicklist') && fresh(kicklist'.ram))
    ensures next == Continue ==> ListOk(kicklist', b, memory, config, c')
    ensures next == Break ==> ListOk(kicklist', b, memory, config, c)
    ensures old(KickOk(kicklist)) ==>
              match Act(b, config, t, l, c, old(KickOf(kicklist)))
              case Stop(r) =>
                || (next == Return(r) && !r.Booted?)
                || (next == Break && r == Finish(KickOf(kicklist')) && KickOk(kicklist'))
              case Go(k, kick) => next == Continue && c' == k && KickOf(kicklist') == kick
    ensures next.Return? ==> !next.r.Booted?
  {
    hide Load, Laid, Fits, RunMemory, Peek, Keyword, Act;
    next, c', kicklist' := Continue, c, kicklist;
    ActCases(b, config, t, l, c, KickOf(kicklist));
    if Keyword(t, LABEL) {
      c' := c + 1;
      if c' == config {
        if !b.Claim(KICKLIST_ADDR, LIST_SIZE) {
          return Return(NoMemory), c', kicklist;
        }
        kicklist' := new Loader(b, memory);
        return;
      }
      if c' > config {
        return Break, c', kicklist;
      }
    }
    if c' != config {
      return;
    }
    var empty := kicklist.Empty();
    var word := if empty then EXEC else MODULE;
    if !Keyword(t, word) {
      return Return(BadLine(l)), c', kicklist;
    }
    var inc := kicklist.LoadModule(Arg(t, word), if empty then b.execAddr else NULL);
    if inc == 0 {
      return Return(LoadFailed), c', kicklist;
    }
  }

  lemma StepCases(b: Board, config: nat, ls: seq<seq<byte>>, l: nat, c: nat, kick: Option<Kick>)
    requires c == config ==> kick.Some?
    ensures ls == [] ==> Step(b, config, ls, l, c, kick) == Finish(kick)
    ensures ls != [] && Ignorable(Trim(ls[0])) ==>
              Step(b, config, ls, l, c, kick) == Step(b, config, ls[1..], l + 1, c, kick)
    ensures ls != [] && !Ignorable(Trim(ls[0])) ==>
              match Act(b, config, Trim(ls[0]), l, c, kick)
              case Stop(r) => Step(b, config, ls, l, c, kick) == r
              case Go(c', kick') => Step(b, config, ls, l, c, kick) == Step(b, config, ls[1..], l + 1, c', kick')
  {
    hide Act, Trim;
  }

  /** The parser's loop. The result is not known yet when it ends normally. */
  method ParseLines(b: Board, memory: Memory, buf: array<byte>, config: nat, ghost layout: seq<byte>)
    returns (next: Next, kicklist: Loader?)
    requires Unread(buf[..], layout, 0) && buf.Length == |layout| + 2 && config >= 1 && b.execAddr != NULL
    modifies buf
    ensures kicklist != null ==> fresh(kicklist) && fresh(kicklist.ram)
    ensures next.Return? ==> !next.r.Booted?
    ensures !next.Return? && kicklist != null ==>
              kicklist.b == b && kicklist.start == memory && kicklist.Valid()
    ensures RestFits(b, config, From(layout, 0), 1, 0, None) ==>
              var want := Step(b, config, From(layout, 0), 1, 0, None);
              if next.Return? then next.r == want
              else want == Finish(KickOf(kicklist)) && KickOk(kicklist)
  {
    hide Trim, Unread, LineAt, From, Act, Step, Ignorable, Significant, AfterLabel, UpToLabel, SectionFits, Laid, Fits,
      RunMemory;
    ghost var want := Step(b, config, From(layout, 0), 1, 0, None);
    ghost var fits := RestFits(b, config, From(layout, 0), 1, 0, None);
    var p, c, l: nat := 0, 0, 1;
    next, kicklist := Continue, null;
    while p < buf.Length - 2
      invariant ListOk(kicklist, b, memory, config, c) && next == Continue
      invariant kicklist != null ==> fresh(kicklist) && fresh(kicklist.ram)
      invariant Unread(buf[..], layout, p)
      invariant fits ==> RestFits(b, config, From(layout, p), l, c, KickOf(kicklist))
      invariant fits ==> want == Step(b, config, From(layout, p), l, c, KickOf(kicklist))
      decreases |layout| + 1 - p
    {
      var ignored, t, end := ReadLine(buf, p, layout);
      FirstLine(layout, p, end);
      StepCases(b, config, From(layout, p), l, c, KickOf(kicklist));
      if fits {
        if ignored {
          RestFitsIgnored(b, config, From(layout, p), l, c, KickOf(kicklist));
        } else if Act(b, config, t, l, c, KickOf(kicklist)).Go? {
          RestFitsActed(b, config, From(layout, p), l, c, KickOf(kicklist));
        }
      }
      if !ignored {
        next, c, kicklist := ActOn(b, memory, config, t, l, c, kicklist);
        if next != Continue {
          return;
        }
      }
      assert p <= end <= |layout| by {
        LineBounds(layout, p, end);
      }
      l, p := l + 1, end + 1;
    }
    NoMoreLines(layout, p);
    StepCases(b, config, [], l, c, KickOf(kicklist));
  }

  lemma LineBounds(layout: seq<byte>, p: nat, e: nat)
    requires LineAt(layout, p, e)
    ensures p <= e <= |layout|
  {
  }

  /** boot_aos_zipkick() from the extracted Kicklayout on, with memory as it is
      then. */
  method BootLayout(b: Board, memory: Memory, buf: array<byte>, config: nat) returns (r: Boot, kicklist: Loader?)
    requires buf.Length >= 2 && Text(buf[..buf.Length - 2]) && config >= 1 && b.execAddr != NULL
    modifies buf
    ensures r.Booted? ==> kicklist != null && fresh(kicklist) && kicklist.b == b && kicklist.kick == r.k
    ensures r.Booted? ==> kicklist.ram.w == RunMemory(memory, r.k.mods)
    ensures ExecFits(b, old(buf[..buf.Length - 2]), config) ==>
              && r == BootFrom(b, old(buf[..buf.Length - 2]), config)
              && (r.Booted? ==> Holds(kicklist.ram.w, r.k.mods))
  {
    var len := buf.Length - 2;
    ghost var layout := buf[..len];
    buf[len], buf[len + 1] := LF, 0;
    assert Unread(buf[..], layout, 0);
    StepIsBootFrom(b, layout, config);
    hide BootFrom, Step, From, Laid, Fits, Holds, Unread, Text, ExecFits, RestFits, RunMemory, Peek;
    var next;
    next, kicklist := ParseLines(b, memory, buf, config, layout);
    if next.Return? {
      return next.r, kicklist;
    }
    var none := true;
    if kicklist != null {
      none := kicklist.Empty();
    }
    if none {
      return NoConfig, kicklist;
    }
    r := Booted(kicklist.kick);
    if ExecFits(b, layout, config) {
      RunHolds(b, memory, kicklist.kick, |kicklist.kick.mods|);
      assert kicklist.kick.mods[..|kicklist.kick.mods|] == kicklist.kick.mods;
    }
  }

  lemma StepIsBootFrom(b: Board, layout: seq<byte>, config: nat)
    requires config >= 1
    ensures Step(b, config, From(layout, 0), 1, 0, None) == BootFrom(b, layout, config)
    ensures RestFits(b, config, From(layout, 0), 1, 0, None) <==> ExecFits(b, layout, config)
  {
    assert layout[0..] == layout;
    StepBefore(b, config, Lines(layout), 1, 0);
  }

  lemma NoMoreLines(layout: seq<byte>, p: nat)
    requires p >= |layout|
    ensures From(layout, p) == []
  {
  }

  lemma ActCases(b: Board, config: nat, t: seq<byte>, l: nat, c: nat, kick: Option<Kick>)
    requires c <= config && (kick.Some? <==> c == config)
    ensures Keyword(t, LABEL) ==>
              Act(b, config, t, l, c, kick) ==
              if c == config then Stop(Finish(kick))
              else if c + 1 < config then Go(c + 1, kick)
              else if b.Claim(KICKLIST_ADDR, LIST_SIZE) then Go(config, Some(START)) else Stop(NoMemory)
    ensures !Keyword(t, LABEL) && c < config ==> Act(b, config, t, l, c, kick) == Go(c, kick)
    ensures !Keyword(t, LABEL) && c == config ==>
              var word := if kick.value.mods == [] then EXEC else MODULE;
              Act(b, config, t, l, c, kick) ==
              if !Keyword(t, word) then Stop(BadLine(l))
              else if Load(b, kick.value, Arg(t, word)).None? then Stop(LoadFailed)
              else Go(c, Load(b, kick.value, Arg(t, word)))
  {
    hide Load, Keyword;
  }

  // ----- the text of a layout, byte by byte ----------------------------------

  /** The argument begins after all blanks and tabs that follow the keyword. */
  lemma ArgIs(t: seq<byte>, word: seq<byte>, n: nat)
    requires Keyword(t, word) && |word| <= n <= |t|
    requires forall i :: |word| <= i < n ==> t[i] == 32 || t[i] == 9
    requires n < |t| ==> t[n] != 32 && t[n] != 9
    ensures Arg(t, word) == t[n..]
  {
    SkipBlankIs(t[|word|..], n - |word|);
    assert t[|word|..][n - |word|..] == t[n..];
  }

  /** A keyword is followed by a blank or a tab. */
  lemma KeywordIs(t: seq<byte>, word: seq<byte>)
    ensures Keyword(t, word) <==> word + [32] <= t || word + [9] <= t
  {
    if |t| > |word| {
      assert t[..|word| + 1] == t[..|word|] + [t[|word|]];
    }
  }

  lemma {:induction false} SkipBlankIs(s: seq<byte>, n: nat)
    requires n <= |s| && (forall i :: 0 <= i < n ==> s[i] == 32 || s[i] == 9)
    requires n < |s| ==> s[n] != 32 && s[n] != 9
    ensures SkipBlank(s) == s[n..]
  {
    if n > 0 {
      SkipBlankIs(s[1..], n - 1);
    }
  }

  /** Blanks, tabs and carriage returns at both ends go, and nothing else. */
  lemma TrimExact(s: seq<byte>, a: nat, q: nat)
    requires a <= q <= |s|
    requires forall i :: 0 <= i < a || q <= i < |s| ==> s[i] == 32 || s[i] == 9 || s[i] == 13
    requires a < |s| ==> a < q && s[a] !in {32, 9, 13} && s[q - 1] !in {32, 9, 13}
    ensures Trim(s) == s[a..q]
  {
    assert s[0..|s|] == s;
    TrimIs(s, 0, a, q, |s|);
  }

  /** A line ends at a line feed. */
  lemma LinesOf(line: seq<byte>, rest: seq<byte>)
    requires 10 !in line
    ensures Lines(line + [10] + rest) == [line] + Lines(rest)
  {
    var s, n := line + [10] + rest, |line|;
    assert s[..n] == line && s[n + 1..] == rest;
    LineLenIs(s, n);
    assert rest == [] ==> s[n + 1..] == [];
  }

  /** Printable text without blanks. */
  ghost predicate Plain(s: seq<byte>) {
    s != [] && forall i :: 0 <= i < |s| ==> s[i] !in {0, 9, 10, 13, 32}
  }

  /** A line of the layout below: some white space, a word, more white space, an
      argument, and a carriage return. */
  function SampleLine(lead: seq<byte>, word: seq<byte>, gap: seq<byte>, arg: seq<byte>): seq<byte> {
    lead + (word + gap + arg) + [13]
  }

  lemma SampleTrim(lead: seq<byte>, word: seq<byte>, gap: seq<byte>, arg: seq<byte>)
    requires Plain(word) && Plain(arg) && 0 < |gap|
    requires forall i :: 0 <= i < |lead| ==> lead[i] == 32 || lead[i] == 9
    requires forall i :: 0 <= i < |gap| ==> gap[i] == 32 || gap[i] == 9
    ensures var line, t := SampleLine(lead, word, gap, arg), word + gap + arg;
            10 !in line && Trim(line) == t && Keyword(t, word) && Arg(t, word) == arg
  {
    hide Trim;
    var line, t := SampleLine(lead, word, gap, arg), word + gap + arg;
    assert line[|lead|] == t[0] == word[0] && line[|lead| + |t| - 1] == t[|t| - 1] == arg[|arg| - 1];
    TrimExact(line, |lead|, |lead| + |t|);
    assert line[|lead|..|lead| + |t|] == t;
    assert t[..|word|] == word && t[|word|] == gap[0];
    assert t[|word| + |gap|] == arg[0];
    forall i | |word| <= i < |word| + |gap| ensures t[i] == 32 || t[i] == 9 {
      assert t[i] == gap[i - |word|];
    }
    ArgIs(t, word, |word| + |gap|);
    assert t[|word| + |gap|..] == arg;
  }

  /** A layout with tabs, blanks and carriage returns says what it looks like:
      LABEL x, EXEC a and MODULE p boot with a and p, whatever they are. */
  lemma SampleBoots(b: Board, x: seq<byte>, a: seq<byte>, p: seq<byte>)
    requires Plain(x) && Plain(a) && Plain(p) && b.Claim(0xec00000, 12)
    ensures var layout :=
              SampleLine([], [76, 65, 66, 69, 76], [9], x) + [10] +
              (SampleLine([9], [69, 88, 69, 67], [32, 9], a) + [10] +
               (SampleLine([32, 32], [77, 79, 68, 85, 76, 69], [9, 32, 32], p) + [10] + []));
            BootFrom(b, layout, 1) == match LoadAll(b, [a, p]) case None => LoadFailed case Some(k) => Booted(k)
  {
    hide Trim, Lines, Load, Keyword, Arg, SampleLine;
    var l1 := SampleLine([], [76, 65, 66, 69, 76], [9], x);
    var l2 := SampleLine([9], [69, 88, 69, 67], [32, 9], a);
    var l3 := SampleLine([32, 32], [77, 79, 68, 85, 76, 69], [9, 32, 32], p);
    var t1, t2, t3 := LABEL + [9] + x, EXEC + [32, 9] + a, MODULE + [9, 32, 32] + p;
    SampleTrim([], LABEL, [9], x);
    SampleTrim([9], EXEC, [32, 9], a);
    SampleTrim([32, 32], MODULE, [9, 32, 32], p);
    LinesOf(l3, []);
    LinesOf(l2, l3 + [10] + []);
    LinesOf(l1, l2 + [10] + (l3 + [10] + []));
    SampleSections(l1, l2, l3, t1, t2, t3);
    NoLines();
    var e, m := Line(2, t2), Line(3, t3);
    assert [e, m][1..] == [m] && [m][1..] == [];
    assert [a, p][..1] == [a] && [a][..0] == [];
    var k := Load(b, START, a);
    assert LoadAll(b, [a]) == k;
    if k.Some? {
      LoadCounts(b, START, a);
      var k' := Load(b, k.value, p);
      if k'.Some? {
        LoadCounts(b, k.value, p);
        assert Process(b, [], k'.value) == Booted(k'.value);
      }
      assert Process(b, [m], k.value) == match k' case None => LoadFailed case Some(r) => Booted(r);
    }
    assert Process(b, [e, m], START) == if k.None? then LoadFailed else Process(b, [m], k.value);
  }

  lemma NoLines()
    ensures Lines([]) == []
  {
  }

  lemma SampleSections(l1: seq<byte>, l2: seq<byte>, l3: seq<byte>, t1: seq<byte>, t2: seq<byte>, t3: seq<byte>)
    requires Trim(l1) == t1 && Trim(l2) == t2 && Trim(l3) == t3
    requires Keyword(t1, LABEL) && Keyword(t2, EXEC) && Keyword(t3, MODULE)
    ensures var rest := AfterLabel(Significant([l1] + ([l2] + ([l3] + [])), 1), 1);
            rest == Some([Line(2, t2), Line(3, t3)]) && UpToLabel(rest.value) == rest.value
  {
    hide Trim;
    var ls := [l1] + ([l2] + ([l3] + []));
    assert ls[1..] == [l2] + ([l3] + []) && ([l2] + ([l3] + []))[1..] == [l3] + [] && ([l3] + [])[1..] == [];
    assert t1[..5][0] == 76 && t2[..4][0] == 69 && t3[..6][0] == 77;
    assert Significant([l3] + [], 3) == [Line(3, t3)];
    assert Significant([l2] + ([l3] + []), 2) == [Line(2, t2), Line(3, t3)];
    assert Significant(ls, 1) == [Line(1, t1)] + [Line(2, t2), Line(3, t3)];
    assert ([Line(1, t1)] + [Line(2, t2), Line(3, t3)])[1..] == [Line(2, t2), Line(3, t3)];
    assert !Keyword(t2, LABEL) && !Keyword(t3, LABEL);
    assert [Line(2, t2), Line(3, t3)][1..] == [Line(3, t3)] && [Line(3, t3)][1..] == [];
    assert UpToLabel([Line(3, t3)]) == [Line(3, t3)];
  }

  // ----- an image that does not fit ------------------------------------------

  function Zeros(n: nat): (s: seq<byte>)
    ensures |s| == n && forall i :: 0 <= i < n ==> s[i] == 0
  {
    seq(n, i => 0)
  }

  /** A board with one archive member "e" of 224 MB of zeros. */
  function LargeExec(): Board {
    Board((addr: nat, size: nat) => true, 0x100_0000, map[[101] := Zeros(0xe00_0000)])
  }

  /** The lines "LABEL a" and "EXEC e". */
  const LARGE_LAYOUT: seq<byte> := [76, 65, 66, 69, 76, 32, 97, 10, 69, 88, 69, 67, 32, 101]

  lemma LargeLines()
    ensures Significant(Lines(LARGE_LAYOUT), 1) == [Line(1, LARGE_LAYOUT[..7]), Line(2, LARGE_LAYOUT[8..])]
  {
    hide Trim, Lines;
    var t := LARGE_LAYOUT;
    assert t[0..] == t && t[0..7] == t[..7] && t[8..14] == t[8..];
    FirstLine(t, 0, 7);
    FirstLine(t, 8, 14);
    TrimIs(t, 0, 0, 7, 7);
    TrimIs(t, 8, 8, 14, 14);
    assert Lines(t) == [t[..7]] + [t[8..]];
    assert Significant([t[8..]], 2) == [Line(2, t[8..])];
    assert Lines(t)[1..] == [t[8..]];
  }

  lemma LargeLoad()
    ensures var k := Load(LargeExec(), START, [101]);
            k == Some(Kick(START.avail + 64, [Module(START.avail, 0x100_0000, Zeros(0xe00_0000), [101], 1)]))
  {
    hide Zeros;
    assert BaseName([101]) == [101];
    assert RoundUp(MODULE_SIZE + 2, 32) == 64;
  }

  /** A boot after which memory holds no list: the image of its EXEC line covers
      the list header. */
  lemma ImageOverHeader(memory: Memory)
    ensures !ExecFits(LargeExec(), LARGE_LAYOUT, 1)
    ensures var r := BootFrom(LargeExec(), LARGE_LAYOUT, 1);
            r.Booted? && !IsList(RunMemory(memory, r.k.mods), KICKLIST_ADDR, Addresses(r.k.mods))
  {
    hide Lines, Significant, Load, Laid, RunMemory, IsList;
    var b, t := LargeExec(), LARGE_LAYOUT;
    LargeLines();
    LargeLoad();
    var first, second := Line(1, t[..7]), Line(2, t[8..]);
    assert Keyword(first.text, LABEL) && !Keyword(second.text, LABEL) && Keyword(second.text, EXEC);
    assert [first, second][1..] == [second] && [second][1..] == [];
    assert UpToLabel([second]) == [second];
    assert second.text[4..] == [32, 101] && [32, 101][1..] == [101];
    assert Arg(second.text, EXEC) == [101];
    var k := Load(b, START, [101]).value;
    assert Process(b, [], k) == Booted(k);
    StartIsLaid(b);
    LoadKeepsLaid(b, START, [101]);
    ZerosUnlink(b, memory, k);
  }
}
