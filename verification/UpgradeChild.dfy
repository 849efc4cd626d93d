/**
 The forked child: it pushes the image to every selected camera and then asks for versions in at
 most five rounds. What each camera did, and what the network answered, are inputs.
 */
module UpgradeChild {
  import opened Wrappers
  import opened Cameras

  const CHECK_RETRY := 5
  const NOT_STARTED := 0xff
  const CODE_SUCCESS := "0"
  const CODE_FAIL := "1"

  /** One reply of a camera to the version query. */
  datatype Answer = ReadFailed | Empty | Unparseable | Version(version: string)

  /** One turn of the select loop: the cameras with data to read. */
  datatype Pass = SelectFailed | Ready(answers: map<nat, Answer>)

  /** One check round: which queries went out, and the select turns until its timeout. */
  datatype Round = Round(connected: seq<bool>, passes: seq<Pass>)

  datatype Verdict = NotSelected | PushFailed | Waiting | Mismatch | Upgraded

  /** Where one camera stands, and how many of its replies could not be parsed. */
  datatype Standing = Standing(verdict: Verdict, bad: nat)

  datatype Plan = Plan(cams: seq<Camera>, model: string, version: string, pushErrors: seq<Option<string>>)

  predicate PlanOk(p: Plan) {
    |p.pushErrors| == |p.cams|
  }

  predicate RoundsOk(p: Plan, rounds: seq<Round>) {
    forall r :: r in rounds ==> |r.connected| == |p.cams|
  }

  predicate Selected(c: Camera, p: Plan) {
    c.devId != 0 && c.online && c.model == p.model && c.fwVersion != p.version
  }

  // ----- what one camera goes through, on its own

  function AfterPush(p: Plan, i: nat): Standing
    requires PlanOk(p) && i < |p.cams|
  {
    if !Selected(p.cams[i], p) then Standing(NotSelected, 0)
    else if p.pushErrors[i].Some? then Standing(PushFailed, 0)
    else Standing(Waiting, 0)
  }

  function Hear(s: Standing, a: Answer, target: string): Standing {
    if s.verdict != Waiting then s
    else
      match a
      case ReadFailed => s
      case Empty => s
      case Unparseable => s.(bad := s.bad + 1)
      case Version(v) => s.(verdict := if v == target then Upgraded else Mismatch)
  }

  function HearPass(s: Standing, i: nat, pass: Pass, target: string): Standing {
    if pass.Ready? && i in pass.answers then Hear(s, pass.answers[i], target) else s
  }

  function HearPasses(s: Standing, i: nat, passes: seq<Pass>, target: string): Standing {
    if passes == [] then s
    else HearPass(HearPasses(s, i, passes[..|passes| - 1], target), i, passes[|passes| - 1], target)
  }

  function HearRound(s: Standing, i: nat, r: Round, target: string): Standing
    requires i < |r.connected|
  {
    if r.connected[i] then HearPasses(s, i, r.passes, target) else s
  }

  function HearRounds(s: Standing, i: nat, rounds: seq<Round>, target: string): Standing
    requires forall r :: r in rounds ==> i < |r.connected|
  {
    if rounds == [] then s
    else HearRound(HearRounds(s, i, rounds[..|rounds| - 1], target), i, rounds[|rounds| - 1], target)
  }

  /** The standing of camera `i` after all the rounds, had it been the only camera. */
  function Alone(p: Plan, i: nat, rounds: seq<Round>): Standing
    requires PlanOk(p) && i < |p.cams| && RoundsOk(p, rounds)
  {
    HearRounds(AfterPush(p, i), i, rounds, p.version)
  }

  lemma {:induction false} SettledHearsNothing(s: Standing, i: nat, passes: seq<Pass>, target: string)
    requires s.verdict != Waiting
    ensures HearPasses(s, i, passes, target) == s
  {
    if passes != [] { SettledHearsNothing(s, i, passes[..|passes| - 1], target); }
  }

  lemma {:induction false} HearPassesSplit(s: Standing, i: nat, a: seq<Pass>, b: seq<Pass>, target: string)
    ensures HearPasses(s, i, a + b, target) == HearPasses(HearPasses(s, i, a, target), i, b, target)
  {
    if b == [] {
      assert a + b == a;
    } else {
      assert (a + b)[..|a + b| - 1] == a + b[..|b| - 1];
      HearPassesSplit(s, i, a, b[..|b| - 1], target);
    }
  }

  lemma {:induction false} HearRoundsSplit(s: Standing, i: nat, a: seq<Round>, b: seq<Round>, target: string)
    requires forall r :: r in a + b ==> i < |r.connected|
    ensures (forall r :: r in a ==> i < |r.connected|) && forall r :: r in b ==> i < |r.connected|
    ensures HearRounds(s, i, a + b, target) == HearRounds(HearRounds(s, i, a, target), i, b, target)
  {
    assert forall r :: r in a || r in b ==> r in a + b;
    if b == [] {
      assert a + b == a;
    } else {
      assert (a + b)[..|a + b| - 1] == a + b[..|b| - 1];
      HearRoundsSplit(s, i, a, b[..|b| - 1], target);
    }
  }

  lemma {:induction false} SettledStaysSettled(s: Standing, i: nat, rounds: seq<Round>, target: string)
    requires s.verdict != Waiting && forall r :: r in rounds ==> i < |r.connected|
    ensures HearRounds(s, i, rounds, target) == s
  {
    if rounds != [] {
      SettledStaysSettled(s, i, rounds[..|rounds| - 1], target);
      SettledHearsNothing(s, i, rounds[|rounds| - 1].passes, target);
    }
  }

  // ----- totals over all cameras

  function Tally(st: seq<Standing>, v: Verdict): nat {
    if st == [] then 0
    else Tally(st[..|st| - 1], v) + if st[|st| - 1].verdict == v then 1 else 0
  }

  /** Errors one camera has contributed so far. */
  function ErrorsOf(s: Standing): nat {
    s.bad + if s.verdict == PushFailed || s.verdict == Mismatch then 1 else 0
  }

  function TotalErrors(st: seq<Standing>): nat {
    if st == [] then 0 else TotalErrors(st[..|st| - 1]) + ErrorsOf(st[|st| - 1])
  }

  function TotalBad(st: seq<Standing>): nat {
    if st == [] then 0 else TotalBad(st[..|st| - 1]) + st[|st| - 1].bad
  }

  lemma {:induction false} TotalsUpdate(st: seq<Standing>, i: nat, s: Standing)
    requires i < |st|
    ensures TotalErrors(st[i := s]) == TotalErrors(st) - ErrorsOf(st[i]) + ErrorsOf(s)
    ensures forall v :: Tally(st[i := s], v) + (if st[i].verdict == v then 1 else 0)
                        == Tally(st, v) + (if s.verdict == v then 1 else 0)
  {
    var last := |st| - 1;
    if i < last {
      assert st[i := s][..last] == st[..last][i := s];
      TotalsUpdate(st[..last], i, s);
    } else {
      assert st[i := s][..last] == st[..last];
    }
  }

  lemma {:induction false} TallyZero(st: seq<Standing>, v: Verdict)
    ensures Tally(st, v) == 0 <==> forall s :: s in st ==> s.verdict != v
  {
    if st != [] {
      TallyZero(st[..|st| - 1], v);
      assert st == st[..|st| - 1] + [st[|st| - 1]];
    }
  }

  /** Every camera falls in exactly one class, and the errors split over three of them. */
  lemma {:induction false} Accounting(st: seq<Standing>)
    ensures |st| == Tally(st, NotSelected) + Tally(st, PushFailed) + Tally(st, Waiting)
                    + Tally(st, Mismatch) + Tally(st, Upgraded)
    ensures TotalErrors(st) == Tally(st, PushFailed) + Tally(st, Mismatch) + TotalBad(st)
  {
    if st != [] { Accounting(st[..|st| - 1]); }
  }

  lemma {:induction false} NoBadMeans(st: seq<Standing>)
    ensures TotalBad(st) == 0 <==> forall s :: s in st ==> s.bad == 0
  {
    if st != [] {
      NoBadMeans(st[..|st| - 1]);
      assert st == st[..|st| - 1] + [st[|st| - 1]];
    }
  }

  // ----- the result codes

  /** What the camera's record says of its standing. */
  predicate CodeOk(s: Standing, code: string, before: string, pushError: Option<string>) {
    match s.verdict
    case NotSelected => code == before
    case PushFailed => pushError == Some(code)
    case Waiting => code == if s.bad > 0 then CODE_FAIL else before
    case Mismatch => code == CODE_FAIL
    case Upgraded => code == CODE_SUCCESS
  }

  /** The bookkeeping every loop below keeps: flags, codes and counters agree with the standings. */
  ghost predicate Books(p: Plan, st: seq<Standing>, before: seq<string>, flag: seq<bool>, code: seq<string>,
                        errors: int)
    requires PlanOk(p)
  {
    && |st| == |before| == |flag| == |code| == |p.cams|
    && (forall i :: 0 <= i < |st| ==> (flag[i] <==> st[i].verdict == Waiting))
    && (forall i :: 0 <= i < |st| ==> CodeOk(st[i], code[i], before[i], p.pushErrors[i]))
    && errors == TotalErrors(st)
  }

  // ----- the child's loops

  /** The books of the push loop: done below `i`, untouched from there on. */
  ghost predicate Pushed(p: Plan, i: nat, st: seq<Standing>, before: seq<string>, flag: seq<bool>, code: seq<string>,
                         errors: int, upgradeCount: int)
    requires PlanOk(p)
  {
    && |st| == i <= |p.cams| == |before| == |flag| == |code|
    && errors == TotalErrors(st) && upgradeCount == Tally(st, Waiting) && Tally(st, Upgraded) == 0
    && (forall k :: 0 <= k < i ==> st[k] == AfterPush(p, k) && (flag[k] <==> st[k].verdict == Waiting))
    && (forall k :: 0 <= k < i ==> CodeOk(st[k], code[k], before[k], p.pushErrors[k]))
    && (forall k :: i <= k < |p.cams| ==> !flag[k] && code[k] == before[k])
  }

  lemma PushedNext(p: Plan, i: nat, st: seq<Standing>, before: seq<string>, flag: seq<bool>, code: seq<string>,
                   errors: int, upgradeCount: int, c: string)
    requires PlanOk(p) && i < |p.cams| && Pushed(p, i, st, before, flag, code, errors, upgradeCount)
    requires CodeOk(AfterPush(p, i), c, before[i], p.pushErrors[i])
    ensures var s := AfterPush(p, i);
            Pushed(p, i + 1, st + [s], before, flag[i := s.verdict == Waiting], code[i := c],
                   errors + ErrorsOf(s), upgradeCount + if s.verdict == Waiting then 1 else 0)
  {
    assert (st + [AfterPush(p, i)])[..i] == st;
  }

  method PushImages(p: Plan, flag: array<bool>, code: array<string>)
    returns (upgradeCount: int, errors: int, ghost st: seq<Standing>)
    requires PlanOk(p) && flag.Length == code.Length == |p.cams|
    requires forall i :: 0 <= i < flag.Length ==> !flag[i]
    modifies flag, code
    ensures Books(p, st, old(code[..]), flag[..], code[..], errors)
    ensures forall i :: 0 <= i < |st| ==> st[i] == AfterPush(p, i)
    ensures upgradeCount == Tally(st, Waiting) && Tally(st, Upgraded) == 0
  {
    ghost var before := code[..];
    upgradeCount, errors, st := 0, 0, [];
    for i := 0 to |p.cams|
      invariant Pushed(p, i, st, before, flag[..], code[..], errors, upgradeCount)
    {
      ghost var wasFlag, wasCode, s := flag[..], code[..], AfterPush(p, i);
      ghost var c := if s.verdict == PushFailed then p.pushErrors[i].value else code[i];
      PushedNext(p, i, st, before, wasFlag, wasCode, errors, upgradeCount, c);
      st := st + [s];
      if Selected(p.cams[i], p) {
        if p.pushErrors[i].Some? {
          code[i] := p.pushErrors[i].value;
          errors := errors + 1;
        } else {
          flag[i] := true;
          upgradeCount := upgradeCount + 1;
        }
      }
      assert flag[..] == wasFlag[i := s.verdict == Waiting] && code[..] == wasCode[i := c];
    }
  }

  lemma BooksUpdated(p: Plan, st: seq<Standing>, before: seq<string>, flag: seq<bool>, code: seq<string>, errors: int,
                     i: nat, s: Standing, c: string)
    requires PlanOk(p) && Books(p, st, before, flag, code, errors) && i < |st|
    requires CodeOk(s, c, before[i], p.pushErrors[i])
    ensures Books(p, st[i := s], before, flag[i := s.verdict == Waiting], code[i := c],
                  errors - ErrorsOf(st[i]) + ErrorsOf(s))
  {
    TotalsUpdate(st, i, s);
  }

  /** Read the reply of one camera in the set. */
  method ReadCamera(p: Plan, i: nat, answer: Answer, flag: array<bool>, inSet: array<bool>, code: array<string>,
                    upgradeCount0: int, errors0: int, needed0: int,
                    ghost st0: seq<Standing>, ghost before: seq<string>)
    returns (upgradeCount: int, errors: int, needed: int, ghost st: seq<Standing>)
    requires PlanOk(p) && flag.Length == inSet.Length == code.Length == |p.cams| && flag != inSet
    requires Books(p, st0, before, flag[..], code[..], errors0)
    requires i < |p.cams| && flag[i] && inSet[i]
    modifies flag, inSet, code
    ensures Books(p, st, before, flag[..], code[..], errors)
    ensures st == st0[i := Hear(st0[i], answer, p.version)]
    ensures upgradeCount - upgradeCount0 == Tally(st, Waiting) - Tally(st0, Waiting)
    ensures needed - needed0 == Tally(st0, Upgraded) - Tally(st, Upgraded)
    ensures inSet[..] == old(inSet[..])[i := st[i].verdict == Waiting]
  {
    upgradeCount, errors, needed := upgradeCount0, errors0, needed0;
    ghost var s, wasSet, wasFlag, wasCode := Hear(st0[i], answer, p.version), inSet[..], flag[..], code[..];
    st := st0[i := s];
    TotalsUpdate(st0, i, s);
    match answer {
      case ReadFailed =>
      case Empty =>
      case Unparseable =>
        code[i] := CODE_FAIL;
        errors := errors + 1;
      case Version(v) =>
        if v != p.version {
          code[i] := CODE_FAIL;
          errors := errors + 1;
        } else {
          code[i] := CODE_SUCCESS;
          needed := needed - 1;
        }
        inSet[i], flag[i] := false, false;
        upgradeCount := upgradeCount - 1;
    }
    assert flag[..] == wasFlag[i := s.verdict == Waiting] && code[..] == wasCode[i := code[i]];
    BooksUpdated(p, st0, before, wasFlag, wasCode, errors0, i, s, code[i]);
  }

  /** Half-way through a select turn: the cameras below `n` have been heard if they were in the set. */
  ghost predicate HeardBelow(n: nat, pass: Pass, target: string, st0: seq<Standing>, set0: seq<bool>,
                             st: seq<Standing>, set1: seq<bool>)
  {
    && n <= |st| == |st0| == |set0| == |set1|
    && (forall k :: 0 <= k < n ==> st[k] == if set0[k] then HearPass(st0[k], k, pass, target) else st0[k])
    && (forall k :: 0 <= k < n ==> (set1[k] <==> set0[k] && st[k].verdict == Waiting))
    && (forall k :: n <= k < |st| ==> st[k] == st0[k] && set1[k] == set0[k])
  }

  lemma HeardOne(n: nat, pass: Pass, target: string, st0: seq<Standing>, set0: seq<bool>,
                 st: seq<Standing>, set1: seq<bool>)
    requires HeardBelow(n, pass, target, st0, set0, st, set1) && n < |st|
    requires pass.Ready? && n in pass.answers && set1[n]
    ensures var s := Hear(st[n], pass.answers[n], target);
            HeardBelow(n + 1, pass, target, st0, set0, st[n := s], set1[n := s.verdict == Waiting])
  {}

  lemma HeardNone(n: nat, pass: Pass, target: string, st0: seq<Standing>, set0: seq<bool>,
                  st: seq<Standing>, set1: seq<bool>)
    requires HeardBelow(n, pass, target, st0, set0, st, set1) && n < |st| && pass.Ready?
    requires set1[n] ==> n !in pass.answers && st[n].verdict == Waiting
    ensures HeardBelow(n + 1, pass, target, st0, set0, st, set1)
  {}

  /** One select turn: read the cameras that are in the set and have data. */
  method HandlePass(p: Plan, pass: Pass, flag: array<bool>, inSet: array<bool>, code: array<string>,
                    upgradeCount0: int, errors0: int, needed0: int,
                    ghost st0: seq<Standing>, ghost before: seq<string>)
    returns (upgradeCount: int, errors: int, needed: int, ghost st: seq<Standing>)
    requires PlanOk(p) && flag.Length == inSet.Length == code.Length == |p.cams| && flag != inSet
    requires Books(p, st0, before, flag[..], code[..], errors0)
    requires upgradeCount0 == Tally(st0, Waiting)
    requires forall i :: 0 <= i < inSet.Length && inSet[i] ==> flag[i]
    modifies flag, inSet, code
    ensures Books(p, st, before, flag[..], code[..], errors)
    ensures upgradeCount == Tally(st, Waiting)
    ensures needed - needed0 == Tally(st0, Upgraded) - Tally(st, Upgraded)
    ensures forall i :: 0 <= i < |st| ==>
              st[i] == if old(inSet[i]) then HearPass(st0[i], i, pass, p.version) else st0[i]
    ensures forall i :: 0 <= i < inSet.Length ==> (inSet[i] <==> old(inSet[i]) && st[i].verdict == Waiting)
  {
    upgradeCount, errors, needed, st := upgradeCount0, errors0, needed0, st0;
    if pass.SelectFailed? {
      return;
    }
    ghost var set0 := inSet[..];
    for i := 0 to |p.cams|
      invariant Books(p, st, before, flag[..], code[..], errors)
      invariant upgradeCount == Tally(st, Waiting)
      invariant needed - needed0 == Tally(st0, Upgraded) - Tally(st, Upgraded)
      invariant HeardBelow(i, pass, p.version, st0, set0, st, inSet[..])
    {
      if inSet[i] && i in pass.answers {
        HeardOne(i, pass, p.version, st0, set0, st, inSet[..]);
        upgradeCount, errors, needed, st :=
          ReadCamera(p, i, pass.answers[i], flag, inSet, code, upgradeCount, errors, needed, st, before);
      } else {
        HeardNone(i, pass, p.version, st0, set0, st, inSet[..]);
      }
    }
    assert forall i :: 0 <= i < inSet.Length ==> set0[i] == old(inSet[i]) && inSet[..][i] == inSet[i];
  }

  /** Query every flagged camera; the reachable ones form the set to listen to. */
  method OpenQueries(round: Round, flag: array<bool>, ghost st: seq<Standing>)
    returns (upgradeCount: int, inSet: array<bool>)
    requires |st| == flag.Length == |round.connected|
    requires forall i :: 0 <= i < |st| ==> (flag[i] <==> st[i].verdict == Waiting)
    ensures fresh(inSet) && inSet.Length == flag.Length
    ensures upgradeCount == Tally(st, Waiting)
    ensures forall i :: 0 <= i < |st| ==> (inSet[i] <==> round.connected[i] && st[i].verdict == Waiting)
  {
    inSet := new bool[flag.Length](_ => false);
    upgradeCount := 0;
    for i := 0 to flag.Length
      invariant upgradeCount == Tally(st[..i], Waiting)
      invariant forall k :: 0 <= k < flag.Length ==> (inSet[k] <==> k < i && flag[k] && round.connected[k])
    {
      assert st[..i + 1][..i] == st[..i];
      if flag[i] {
        upgradeCount := upgradeCount + 1;
        inSet[i] := round.connected[i];
      }
    }
    assert st[..flag.Length] == st;
  }

  /** Standing of camera `i` after the first `n` select turns of a round. */
  function Listened(s: Standing, i: nat, round: Round, n: nat, target: string): Standing
    requires i < |round.connected| && n <= |round.passes|
  {
    if round.connected[i] then HearPasses(s, i, round.passes[..n], target) else s
  }

  lemma ListenedOneMore(s: Standing, i: nat, round: Round, n: nat, target: string)
    requires i < |round.connected| && n < |round.passes|
    ensures Listened(s, i, round, n + 1, target) ==
      if round.connected[i] then HearPass(Listened(s, i, round, n, target), i, round.passes[n], target) else s
    ensures !round.connected[i] || Listened(s, i, round, n, target).verdict != Waiting ==>
      Listened(s, i, round, n + 1, target) == Listened(s, i, round, n, target)
  {
    assert round.passes[..n + 1][..n] == round.passes[..n];
  }

  lemma ListenedEnough(s: Standing, i: nat, round: Round, n: nat, target: string)
    requires i < |round.connected| && n <= |round.passes|
    requires n == |round.passes| || !round.connected[i] || Listened(s, i, round, n, target).verdict != Waiting
    ensures Listened(s, i, round, n, target) == HearRound(s, i, round, target)
  {
    assert round.passes == round.passes[..n] + round.passes[n..];
    HearPassesSplit(s, i, round.passes[..n], round.passes[n..], target);
    if n == |round.passes| {
      assert round.passes[..n] == round.passes;
    } else if round.connected[i] {
      SettledHearsNothing(Listened(s, i, round, n, target), i, round.passes[n..], target);
    }
  }

  /** One check round: query every flagged camera, then listen until the timeout. */
  method CheckRound(p: Plan, round: Round, flag: array<bool>, code: array<string>,
                    errors0: int, needed0: int, ghost st0: seq<Standing>, ghost before: seq<string>)
    returns (upgradeCount: int, errors: int, needed: int, ghost st: seq<Standing>)
    requires PlanOk(p) && flag.Length == code.Length == |p.cams| == |round.connected|
    requires Books(p, st0, before, flag[..], code[..], errors0)
    modifies flag, code
    ensures Books(p, st, before, flag[..], code[..], errors)
    ensures upgradeCount == Tally(st, Waiting)
    ensures needed - needed0 == Tally(st0, Upgraded) - Tally(st, Upgraded)
    ensures forall i :: 0 <= i < |st| ==> st[i] == HearRound(st0[i], i, round, p.version)
  {
    errors, needed, st := errors0, needed0, st0;
    var inSet;
    upgradeCount, inSet := OpenQueries(round, flag, st);
    var n := 0;
    while n < |round.passes| && exists i :: 0 <= i < inSet.Length && inSet[i]
      invariant 0 <= n <= |round.passes|
      invariant Books(p, st, before, flag[..], code[..], errors)
      invariant upgradeCount == Tally(st, Waiting)
      invariant needed - needed0 == Tally(st0, Upgraded) - Tally(st, Upgraded)
      invariant forall i :: 0 <= i < |st| ==> st[i] == Listened(st0[i], i, round, n, p.version)
      invariant forall i :: 0 <= i < inSet.Length ==> (inSet[i] <==> round.connected[i] && st[i].verdict == Waiting)
    {
      forall i | 0 <= i < |st| ensures Listened(st0[i], i, round, n + 1, p.version)
        == if inSet[i] then HearPass(st[i], i, round.passes[n], p.version) else st[i]
      {
        ListenedOneMore(st0[i], i, round, n, p.version);
      }
      upgradeCount, errors, needed, st :=
        HandlePass(p, round.passes[n], flag, inSet, code, upgradeCount, errors, needed, st, before);
      n := n + 1;
    }
    forall i | 0 <= i < |st| ensures st[i] == HearRound(st0[i], i, round, p.version) {
      ListenedEnough(st0[i], i, round, n, p.version);
    }
  }

  /** Check rounds until every camera has answered, five at most. */
  method CheckAll(p: Plan, rounds: seq<Round>, flag: array<bool>, code: array<string>, upgradeCount0: int,
                  errors0: int, needed0: int, ghost pushed: seq<Standing>, ghost before: seq<string>)
    returns (errors: int, needed: int, used: nat, ghost st: seq<Standing>)
    requires PlanOk(p) && RoundsOk(p, rounds) && |rounds| == CHECK_RETRY
    requires flag.Length == code.Length == |p.cams|
    requires Books(p, pushed, before, flag[..], code[..], errors0) && upgradeCount0 == Tally(pushed, Waiting)
    modifies flag, code
    ensures Books(p, st, before, flag[..], code[..], errors)
    ensures needed - needed0 == Tally(pushed, Upgraded) - Tally(st, Upgraded)
    ensures used <= CHECK_RETRY && (used < CHECK_RETRY ==> Tally(st, Waiting) == 0)
    ensures forall i :: 0 <= i < |st| ==> st[i] == HearRounds(pushed[i], i, rounds, p.version)
  {
    var upgradeCount := upgradeCount0;
    errors, needed, used, st := errors0, needed0, 0, pushed;
    while upgradeCount != 0 && used < CHECK_RETRY
      invariant used <= CHECK_RETRY
      invariant Books(p, st, before, flag[..], code[..], errors)
      invariant upgradeCount == Tally(st, Waiting)
      invariant needed - needed0 == Tally(pushed, Upgraded) - Tally(st, Upgraded)
      invariant RoundsOk(p, rounds[..used])
      invariant forall i :: 0 <= i < |st| ==> st[i] == HearRounds(pushed[i], i, rounds[..used], p.version)
      decreases CHECK_RETRY - used
    {
      assert rounds[used] in rounds;
      upgradeCount, errors, needed, st := CheckRound(p, rounds[used], flag, code, errors, needed, st, before);
      assert rounds[..used + 1][..used] == rounds[..used];
      assert forall r :: r in rounds[..used + 1] ==> r in rounds;
      used := used + 1;
    }
    TallyZero(st, Waiting);
    assert rounds == rounds[..used] + rounds[used..];
    forall i | 0 <= i < |st| ensures st[i] == HearRounds(pushed[i], i, rounds, p.version) {
      HearRoundsSplit(pushed[i], i, rounds[..used], rounds[used..], p.version);
      if used < CHECK_RETRY {
        assert st[i] in st;
        SettledStaysSettled(st[i], i, rounds[used..], p.version);
      }
    }
  }

  /** Cameras still flagged after the checks have failed. */
  method MarkUnresolved(p: Plan, flag: array<bool>, code: array<string>, errors0: int,
                        ghost st: seq<Standing>, ghost before: seq<string>) returns (errors: int)
    requires PlanOk(p) && flag.Length == code.Length == |p.cams|
    requires Books(p, st, before, flag[..], code[..], errors0)
    modifies code
    ensures errors == TotalErrors(st) + Tally(st, Waiting)
    ensures forall i :: 0 <= i < |st| ==>
      if st[i].verdict == Waiting then code[i] == CODE_FAIL else CodeOk(st[i], code[i], before[i], p.pushErrors[i])
  {
    errors := errors0;
    for i := 0 to |p.cams|
      invariant errors == TotalErrors(st) + Tally(st[..i], Waiting)
      invariant forall k :: 0 <= k < i && st[k].verdict == Waiting ==> code[k] == CODE_FAIL
      invariant forall k :: 0 <= k < |st| && st[k].verdict != Waiting ==>
        CodeOk(st[k], code[k], before[k], p.pushErrors[k])
    {
      assert st[..i + 1][..i] == st[..i];
      if flag[i] {
        code[i] := CODE_FAIL;
        errors := errors + 1;
      }
    }
    assert st[..|p.cams|] == st;
  }

  /** Push, then check until every camera has answered or five rounds are over. Returns the error
      count that goes into the shared record. */
  method Process(running: bool, model: Option<string>, imageFound: bool, p: Plan, rounds: seq<Round>,
                 code: array<string>, needed0: int)
    returns (errors: int, needed: int, used: nat, ghost st: seq<Standing>)
    requires PlanOk(p) && RoundsOk(p, rounds) && |rounds| == CHECK_RETRY && code.Length == |p.cams|
    requires model.Some? ==> model.value == p.model
    modifies code
    ensures !(running && model.Some? && imageFound) ==>
      errors == NOT_STARTED && needed == needed0 && code[..] == old(code[..])
    ensures running && model.Some? && imageFound ==>
      && |st| == |p.cams| && used <= CHECK_RETRY
      && (forall i :: 0 <= i < |st| ==> st[i] == Alone(p, i, rounds))
      && errors == TotalErrors(st) + Tally(st, Waiting)
      && needed == needed0 - Tally(st, Upgraded)
      && forall i :: 0 <= i < |st| ==>
           if st[i].verdict == Waiting then code[i] == CODE_FAIL
           else CodeOk(st[i], code[i], old(code[i]), p.pushErrors[i])
  {
    needed, used, st := needed0, 0, [];
    if !running || model.None? || !imageFound {
      errors := NOT_STARTED;
      return;
    }
    ghost var before := code[..];
    var flag := new bool[|p.cams|](_ => false);
    var upgradeCount;
    upgradeCount, errors, st := PushImages(p, flag, code);
    errors, needed, used, st := CheckAll(p, rounds, flag, code, upgradeCount, errors, needed, st, before);
    errors := MarkUnresolved(p, flag, code, errors, st, before);
  }

  // ----- what the error count means

  /** The replies camera `i` gave, in order, over the rounds in which it could be reached. */
  function Replies(i: nat, passes: seq<Pass>): seq<Answer> {
    if passes == [] then []
    else
      var last := passes[|passes| - 1];
      Replies(i, passes[..|passes| - 1]) + if last.Ready? && i in last.answers then [last.answers[i]] else []
  }

  function AllReplies(i: nat, rounds: seq<Round>): seq<Answer>
    requires forall r :: r in rounds ==> i < |r.connected|
  {
    if rounds == [] then []
    else
      var last := rounds[|rounds| - 1];
      AllReplies(i, rounds[..|rounds| - 1]) + if last.connected[i] then Replies(i, last.passes) else []
  }

  /** The first version a camera reported decides; later replies do not matter. */
  function FirstVersion(replies: seq<Answer>): Option<string> {
    if replies == [] then None
    else
      var early := FirstVersion(replies[..|replies| - 1]);
      if early.Some? then early
      else if replies[|replies| - 1].Version? then Some(replies[|replies| - 1].version) else None
  }

  function BadBeforeVersion(replies: seq<Answer>): nat {
    if replies == [] then 0
    else
      var front := replies[..|replies| - 1];
      BadBeforeVersion(front)
      + if FirstVersion(front).None? && replies[|replies| - 1].Unparseable? then 1 else 0
  }

  function Judge(replies: seq<Answer>, target: string): Standing {
    match FirstVersion(replies)
    case None => Standing(Waiting, BadBeforeVersion(replies))
    case Some(v) => Standing(if v == target then Upgraded else Mismatch, BadBeforeVersion(replies))
  }

  lemma JudgeOneMore(replies: seq<Answer>, a: Answer, target: string)
    ensures Judge(replies + [a], target) == Hear(Judge(replies, target), a, target)
  {
    assert (replies + [a])[..|replies|] == replies;
  }

  lemma {:induction false} PassesJudged(s: Standing, i: nat, passes: seq<Pass>, seen: seq<Answer>, target: string)
    requires s == Judge(seen, target)
    ensures HearPasses(s, i, passes, target) == Judge(seen + Replies(i, passes), target)
  {
    if passes == [] {
      assert seen + [] == seen;
    } else {
      var front, last := passes[..|passes| - 1], passes[|passes| - 1];
      PassesJudged(s, i, front, seen, target);
      if last.Ready? && i in last.answers {
        JudgeOneMore(seen + Replies(i, front), last.answers[i], target);
        assert seen + Replies(i, passes) == seen + Replies(i, front) + [last.answers[i]];
      } else {
        assert Replies(i, passes) == Replies(i, front);
      }
    }
  }

  /** What the child concludes about a pushed camera is the verdict on all its replies. */
  lemma {:induction false} VerdictIsFirstVersion(i: nat, rounds: seq<Round>, target: string)
    requires forall r :: r in rounds ==> i < |r.connected|
    ensures HearRounds(Standing(Waiting, 0), i, rounds, target) == Judge(AllReplies(i, rounds), target)
  {
    if rounds != [] {
      var front, last := rounds[..|rounds| - 1], rounds[|rounds| - 1];
      VerdictIsFirstVersion(i, front, target);
      if last.connected[i] {
        PassesJudged(HearRounds(Standing(Waiting, 0), i, front, target), i, last.passes, AllReplies(i, front), target);
      } else {
        assert AllReplies(i, rounds) == AllReplies(i, front);
      }
    }
  }

  /** Without an error every connected camera of the model that reported another version took the image and
      then first reported the target version, with no unparseable reply before it; and the other way
      round. */
  lemma {:induction false} ErrorFreeMeansUpgraded(p: Plan, rounds: seq<Round>, st: seq<Standing>)
    requires PlanOk(p) && RoundsOk(p, rounds) && |st| == |p.cams|
    requires forall i :: 0 <= i < |st| ==> st[i] == Alone(p, i, rounds)
    ensures TotalErrors(st) + Tally(st, Waiting) == 0 <==>
      forall i :: 0 <= i < |p.cams|
                  && p.cams[i].devId != 0 && p.cams[i].online
                  && p.cams[i].model == p.model && p.cams[i].fwVersion != p.version ==>
        && p.pushErrors[i].None?
        && FirstVersion(AllReplies(i, rounds)) == Some(p.version)
        && BadBeforeVersion(AllReplies(i, rounds)) == 0
  {
    Accounting(st);
    NoBadMeans(st);
    TallyZero(st, Waiting);
    TallyZero(st, PushFailed);
    TallyZero(st, Mismatch);
    forall i | 0 <= i < |st|
      ensures st[i] in st
      ensures st[i].bad == 0 && st[i].verdict !in {Waiting, PushFailed, Mismatch} <==>
        (Selected(p.cams[i], p) ==> p.pushErrors[i].None? && FirstVersion(AllReplies(i, rounds)) == Some(p.version)
                                    && BadBeforeVersion(AllReplies(i, rounds)) == 0)
    {
      if AfterPush(p, i).verdict != Waiting {
        SettledStaysSettled(AfterPush(p, i), i, rounds, p.version);
      } else {
        VerdictIsFirstVersion(i, rounds, p.version);
      }
    }
  }

  /** Exactly the connected cameras of the model that report another version are pushed to, and each of them
      ends in exactly one of the four classes the totals count. */
  lemma SelectedIsClassified(p: Plan, i: nat, rounds: seq<Round>)
    requires PlanOk(p) && RoundsOk(p, rounds) && i < |p.cams|
    ensures var c, s := p.cams[i], Alone(p, i, rounds);
            var pushed := c.devId != 0 && c.online && c.model == p.model && c.fwVersion != p.version;
            && (s.verdict == NotSelected <==> !pushed)
            && (s.verdict == PushFailed <==> pushed && p.pushErrors[i].Some?)
            && (s.verdict in {Waiting, Mismatch, Upgraded} <==> pushed && p.pushErrors[i].None?)
  {
    if AfterPush(p, i).verdict != Waiting {
      SettledStaysSettled(AfterPush(p, i), i, rounds, p.version);
    } else {
      VerdictIsFirstVersion(i, rounds, p.version);
    }
  }
}
