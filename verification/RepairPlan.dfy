/** The dry-run plan (`store::repair::plan_repair`): which rebuilds the findings of an audit call for, and
    which findings no rebuild may touch. */
module RepairPlans {
  datatype IssueKind =
    | StoreMetaCorrupt | StoreFormatUnsupported | CryptoMetaCorrupt
    | SstHeaderCorrupt | SstFooterCorrupt | SstBlockIndexCorrupt | SstBloomCorrupt | SstDataBlockCorrupt
    | SstSealedSectionCorrupt | SstBlockLayout | SstKeyOrder | SstBloomFalseNegative | SstMetadataMismatch
    | WalCorrupt | WalTornTail | OrphanTmpFile | UnknownFile | Io
    | IdxKeyMalformed | IdxValueCorrupt | MemoryLinkBroken | AllocatorStale
    | VectorNeighborMissing | VectorDimMismatch | VectorMetaInconsistent
    | FtsLinkBroken | FtsStatsInconsistent | GraphEdgeDangling | AgentIsolationBreach
    | LogicalChecksSkipped | Other

  datatype Issue = Issue(kind: IssueKind, detail: string)

  datatype Action = RebuildMemoryMappings | RebuildFts | RebuildVectorGraph | ReembedMissingVectors

  datatype Plan = Plan(actions: seq<Action>, primaryDataAtRisk: seq<Issue>, warnings: seq<Issue>) {
    predicate CanApplyDerivedOnly() { primaryDataAtRisk == [] }
  }

  predicate Contains(s: string, part: string) {
    exists i :: 0 <= i <= |s| && OccursAt(s, part, i)
  }

  lemma ContainsIff(s: string, part: string)
    ensures Contains(s, part) <==> exists before, after :: s == before + part + after
  {
    if Contains(s, part) {
      var i :| 0 <= i <= |s| && OccursAt(s, part, i);
      assert s == s[..i] + part + s[i + |part|..];
    }
    if before, after :| s == before + part + after {
      assert OccursAt(s, part, |before|);
    }
  }

  predicate OccursAt(s: string, part: string, i: nat)
    requires i <= |s|
  {
    part <= s[i..]
  }

  /** What a warning asks for; most ask for nothing. */
  function ForWarning(issue: Issue): seq<Action> {
    match issue.kind
    case VectorMetaInconsistent => [RebuildVectorGraph]
    case FtsStatsInconsistent => [RebuildFts]
    case _ => []
  }

  /** What an error asks for; nothing means that primary data may be damaged. */
  function ForError(issue: Issue): seq<Action> {
    match issue.kind
    case AllocatorStale => [RebuildMemoryMappings]
    case FtsLinkBroken => [RebuildFts]
    case FtsStatsInconsistent => [RebuildFts]
    case VectorNeighborMissing => [RebuildVectorGraph]
    case VectorDimMismatch => [RebuildVectorGraph]
    case VectorMetaInconsistent => [RebuildVectorGraph]
    case MemoryLinkBroken => [RebuildMemoryMappings, ReembedMissingVectors]
    case IdxValueCorrupt =>
      if Contains(issue.detail, "fts ") then [RebuildFts]
      else if Contains(issue.detail, "vector index metadata") then [RebuildVectorGraph]
      else []
    case _ => []
  }

  /** Some finding of the audit asks for `action`. */
  ghost predicate Asked(warnings: seq<Issue>, errors: seq<Issue>, action: Action) {
    || (exists i :: 0 <= i < |warnings| && action in ForWarning(warnings[i]))
    || (exists i :: 0 <= i < |errors| && action in ForError(errors[i]))
  }

  /** The errors nothing can be rebuilt for, in order. */
  function AtRisk(errors: seq<Issue>): seq<Issue> {
    if errors == [] then []
    else
      var n := |errors| - 1;
      AtRisk(errors[..n]) + if ForError(errors[n]) == [] then [errors[n]] else []
  }

  // ── the findings by kind ───────────────────────────────────────────────

  ghost predicate HasKind(issues: seq<Issue>, kinds: set<IssueKind>) {
    exists i :: 0 <= i < |issues| && issues[i].kind in kinds
  }

  /** A corrupt index value, by its finding one of the full-text index. */
  predicate CorruptText(issue: Issue) {
    issue.kind == IdxValueCorrupt && Contains(issue.detail, "fts ")
  }

  /** A corrupt index value, by its finding the vector index metadata. */
  predicate CorruptVectorMeta(issue: Issue) {
    && issue.kind == IdxValueCorrupt && !Contains(issue.detail, "fts ")
    && Contains(issue.detail, "vector index metadata")
  }

  /** A rebuild exists for this error. */
  predicate Repairable(e: Issue) {
    || e.kind in {AllocatorStale, MemoryLinkBroken, FtsLinkBroken, FtsStatsInconsistent}
    || e.kind in {VectorNeighborMissing, VectorDimMismatch, VectorMetaInconsistent}
    || CorruptText(e) || CorruptVectorMeta(e)
  }

  /** What one finding asks for, by kind. */
  predicate AsksByKind(issue: Issue) {
    var e, w := ForError(issue), ForWarning(issue);
    && (RebuildMemoryMappings in e <==> issue.kind in {AllocatorStale, MemoryLinkBroken})
    && (ReembedMissingVectors in e <==> issue.kind in {MemoryLinkBroken})
    && (RebuildFts in e <==> issue.kind in {FtsLinkBroken, FtsStatsInconsistent} || CorruptText(issue))
    && (RebuildVectorGraph in e
        <==> || issue.kind in {VectorNeighborMissing, VectorDimMismatch, VectorMetaInconsistent}
             || CorruptVectorMeta(issue))
    && RebuildMemoryMappings !in w && ReembedMissingVectors !in w
    && (RebuildFts in w <==> issue.kind in {FtsStatsInconsistent})
    && (RebuildVectorGraph in w <==> issue.kind in {VectorMetaInconsistent})
  }

  lemma ByKind(issue: Issue)
    ensures AsksByKind(issue) && (ForError(issue) == [] <==> !Repairable(issue))
  {
    hide Contains;
  }

  /** Which rebuild is asked for by which kind of finding. */
  lemma AskedByKind(warnings: seq<Issue>, errors: seq<Issue>)
    ensures Asked(warnings, errors, RebuildMemoryMappings) <==> HasKind(errors, {AllocatorStale, MemoryLinkBroken})
    ensures Asked(warnings, errors, ReembedMissingVectors) <==> HasKind(errors, {MemoryLinkBroken})
    ensures Asked(warnings, errors, RebuildFts)
        <==> || HasKind(warnings, {FtsStatsInconsistent})
             || HasKind(errors, {FtsLinkBroken, FtsStatsInconsistent})
             || exists i :: 0 <= i < |errors| && CorruptText(errors[i])
    ensures Asked(warnings, errors, RebuildVectorGraph)
        <==> || HasKind(warnings, {VectorMetaInconsistent})
             || HasKind(errors, {VectorNeighborMissing, VectorDimMismatch, VectorMetaInconsistent})
             || exists i :: 0 <= i < |errors| && CorruptVectorMeta(errors[i])
  {
    hide ForError, ForWarning, CorruptText, CorruptVectorMeta;
    forall i | 0 <= i < |warnings|
      ensures AsksByKind(warnings[i])
    {
      ByKind(warnings[i]);
    }
    forall i | 0 <= i < |errors|
      ensures AsksByKind(errors[i])
    {
      ByKind(errors[i]);
    }
  }

  /** The errors left as risks are those no rebuild exists for, in the order in which they are reported. */
  lemma AtRiskIs(errors: seq<Issue>, more: seq<Issue>, e: Issue)
    ensures AtRisk(errors + more) == AtRisk(errors) + AtRisk(more)
    ensures AtRisk([e]) == if Repairable(e) then [] else [e]
  {
    hide ForError, Repairable;
    ByKind(e);
    AtRiskConcat(errors, more);
    assert [e][..0] == [];
  }

  lemma {:induction false} AtRiskConcat(errors: seq<Issue>, more: seq<Issue>)
    ensures AtRisk(errors + more) == AtRisk(errors) + AtRisk(more)
  {
    hide ForError;
    var all := errors + more;
    if more == [] {
      assert all == errors;
    } else {
      var n := |more| - 1;
      AtRiskConcat(errors, more[..n]);
      assert all[..|all| - 1] == errors + more[..n] && all[|all| - 1] == more[n];
    }
  }

  predicate NoRepeats(actions: seq<Action>) {
    forall i, j :: 0 <= i < j < |actions| ==> actions[i] != actions[j]
  }

  method AddAction(actions: seq<Action>, action: Action) returns (r: seq<Action>)
    requires NoRepeats(actions)
    ensures NoRepeats(r) && actions <= r
    ensures forall a :: a in r <==> a in actions || a == action
  {
    r := actions;
    if action !in actions {
      r := actions + [action];
    }
  }

  method AddAll(actions: seq<Action>, wanted: seq<Action>) returns (r: seq<Action>)
    requires NoRepeats(actions)
    ensures NoRepeats(r) && actions <= r
    ensures forall a :: a in r <==> a in actions || a in wanted
  {
    r := actions;
    for i := 0 to |wanted|
      invariant NoRepeats(r) && actions <= r
      invariant forall a :: a in r <==> a in actions || a in wanted[..i]
    {
      r := AddAction(r, wanted[i]);
    }
  }

  /** Exactly the rebuilds some finding asks for, each once; every warning; and every error that asks for none. */
  method PlanRepair(warnings: seq<Issue>, errors: seq<Issue>) returns (plan: Plan)
    ensures NoRepeats(plan.actions)
    ensures RebuildMemoryMappings in plan.actions <==> HasKind(errors, {AllocatorStale, MemoryLinkBroken})
    ensures ReembedMissingVectors in plan.actions <==> HasKind(errors, {MemoryLinkBroken})
    ensures RebuildFts in plan.actions
        <==> || HasKind(warnings, {FtsStatsInconsistent})
             || HasKind(errors, {FtsLinkBroken, FtsStatsInconsistent})
             || exists i :: 0 <= i < |errors| && CorruptText(errors[i])
    ensures RebuildVectorGraph in plan.actions
        <==> || HasKind(warnings, {VectorMetaInconsistent})
             || HasKind(errors, {VectorNeighborMissing, VectorDimMismatch, VectorMetaInconsistent})
             || exists i :: 0 <= i < |errors| && CorruptVectorMeta(errors[i])
    ensures plan.warnings == warnings && plan.primaryDataAtRisk == AtRisk(errors)
    ensures plan.CanApplyDerivedOnly() <==> forall i :: 0 <= i < |errors| ==> Repairable(errors[i])
  {
    hide ForWarning, ForError, Repairable;
    var actions: seq<Action>, atRisk: seq<Issue>, seen: seq<Issue> := [], [], [];
    for i := 0 to |warnings|
      invariant NoRepeats(actions) && seen == warnings[..i]
      invariant forall a :: a in actions <==> Asked(warnings[..i], [], a)
    {
      AskedMore(warnings[..i], [], warnings[i], true);
      assert warnings[..i + 1] == warnings[..i] + [warnings[i]];
      seen := seen + [warnings[i]];
      actions := AddAll(actions, ForWarning(warnings[i]));
    }
    assert warnings[..|warnings|] == warnings && errors[..0] == [];
    for i := 0 to |errors|
      invariant NoRepeats(actions) && atRisk == AtRisk(errors[..i])
      invariant forall a :: a in actions <==> Asked(warnings, errors[..i], a)
    {
      AskedMore(warnings, errors[..i], errors[i], false);
      assert errors[..i + 1] == errors[..i] + [errors[i]] && errors[..i + 1][..i] == errors[..i];
      var wanted := ForError(errors[i]);
      if wanted == [] {
        atRisk := atRisk + [errors[i]];
      }
      actions := AddAll(actions, wanted);
    }
    assert errors[..|errors|] == errors;
    NothingAtRisk(errors);
    AskedByKind(warnings, errors);
    plan := Plan(actions, atRisk, seen);
  }

  lemma AskedMore(warnings: seq<Issue>, errors: seq<Issue>, issue: Issue, warning: bool)
    ensures forall a :: if warning then Asked(warnings + [issue], errors, a) <==> Asked(warnings, errors, a) || a in ForWarning(issue)
                        else Asked(warnings, errors + [issue], a) <==> Asked(warnings, errors, a) || a in ForError(issue)
  {
    hide ForWarning, ForError;
    forall a
      ensures Asked(warnings + [issue], errors, a) <==> Asked(warnings, errors, a) || a in ForWarning(issue)
      ensures Asked(warnings, errors + [issue], a) <==> Asked(warnings, errors, a) || a in ForError(issue)
    {
      var more, most := warnings + [issue], errors + [issue];
      assert more[|warnings|] == issue && most[|errors|] == issue;
      assert forall i :: 0 <= i < |warnings| ==> more[i] == warnings[i];
      assert forall i :: 0 <= i < |errors| ==> most[i] == errors[i];
    }
  }

  lemma {:induction false} NothingAtRisk(errors: seq<Issue>)
    ensures AtRisk(errors) == [] <==> forall i :: 0 <= i < |errors| ==> Repairable(errors[i])
  {
    hide ForError, Repairable;
    if errors != [] {
      var n := |errors| - 1;
      NothingAtRisk(errors[..n]);
      ByKind(errors[n]);
      assert forall i :: 0 <= i < n ==> errors[..n][i] == errors[i];
    }
  }
}
