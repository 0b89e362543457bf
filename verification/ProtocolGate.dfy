/**
 * The Phase 2 gate: how the Pyright probe, the lifecycle battery and the behaviour witness are
 * turned into one outcome, and what the receipt demands of that outcome. What the probes observe
 * is arbitrary input.
 */
module ProtocolGate {
  import opened Wrappers
  import LockParser
  import LineFolding

  // --- the capability probe -----------------------------------------------------------------

  datatype Capability = Definition | DocumentSymbols | Implementation | References | WorkspaceSymbols

  const PROBED: set<Capability> := {Definition, DocumentSymbols, Implementation, References, WorkspaceSymbols}
  const REQUIRED: set<Capability> := {Definition, DocumentSymbols, References, WorkspaceSymbols}

  // What came back for one request.
  datatype Response = ErrorResponse | NotNormalizable | NoEvidence | Evidence

  datatype Observed = Observed(accepted: bool, normalized: bool, ready: bool)

  // _observe_request
  function Observe(response: Response): Observed {
    match response
    case ErrorResponse => Observed(false, false, false)
    case NotNormalizable => Observed(true, false, false)
    case NoEvidence => Observed(true, false, false)
    case Evidence => Observed(true, true, true)
  }

  // One session: the providers the server advertised, its answers, and how it ended. A terminal
  // error is kept as the text of an exception the reader passed on, whatever that text is.
  datatype ProbeSession = ProbeSession(
    advertised: set<Capability>, responses: map<Capability, Response>,
    terminalErrors: set<string>, cleanupErrors: nat, closeError: bool, exitStatus: Option<int>)

  // Unadvertised implementation is not asked for.
  function ObservedIn(session: ProbeSession, c: Capability): Observed {
    if (c == Implementation && c !in session.advertised) || c !in session.responses then Observed(false, false, false)
    else Observe(session.responses[c])
  }

  datatype CapabilityEvidence = CapabilityEvidence(advertised: bool, accepted: Option<bool>, normalized: Option<bool>)

  function EvidenceIn(session: ProbeSession, c: Capability): CapabilityEvidence {
    var o := ObservedIn(session, c);
    CapabilityEvidence(c in session.advertised, Some(o.accepted), Some(o.normalized))
  }

  // --- issues -------------------------------------------------------------------------------

  datatype Issue =
    | NotAdvertised(capability: Capability) | NotNormalized(capability: Capability) | NotReady
    | TerminalError(text: string) | CleanupError | CloseError | ExitStatus
    | ScenarioFailed(index: nat)
    | WitnessIssue(text: string) | WitnessFailed | Inconclusive

  // str.strip() leaves nothing.
  predicate Blank(text: string) { LockParser.Strip(text) == "" }

  // Terminal errors and witness issues are texts passed on; the text of every other issue begins
  // with words of the harness.
  predicate BlankIssue(issue: Issue) { (issue.TerminalError? || issue.WitnessIssue?) && Blank(issue.text) }

  // What run_pyright_capability_probe collects about the capabilities, and about the session's end.
  function CapabilityIssues(session: ProbeSession): set<Issue> {
    (set c | c in REQUIRED && c !in session.advertised :: NotAdvertised(c))
    + (set c | c in REQUIRED && c in session.advertised
               && !(ObservedIn(session, c).accepted && ObservedIn(session, c).normalized) :: NotNormalized(c))
    + (if exists c :: c in REQUIRED && ObservedIn(session, c).ready then {} else {NotReady})
  }

  function EndIssues(session: ProbeSession): set<Issue> {
    (set text | text in session.terminalErrors :: TerminalError(text))
    + (if session.cleanupErrors == 0 then {} else {CleanupError})
    + (if session.closeError then {CloseError} else {})
    + (if session.exitStatus in {None, Some(0)} then {} else {ExitStatus})
  }

  function ProbeIssues(session: ProbeSession): set<Issue> { CapabilityIssues(session) + EndIssues(session) }

  // Without an issue, every required capability was advertised, accepted and normalized.
  lemma CleanProbe(session: ProbeSession, c: Capability)
    requires ProbeIssues(session) == {} && c in REQUIRED
    ensures c in session.advertised && ObservedIn(session, c).accepted && ObservedIn(session, c).normalized
  {
    assert c !in session.advertised ==> NotAdvertised(c) in ProbeIssues(session);
    assert c in session.advertised && !(ObservedIn(session, c).accepted && ObservedIn(session, c).normalized)
           ==> NotNormalized(c) in ProbeIssues(session);
  }

  // --- the lifecycle battery ----------------------------------------------------------------

  datatype ProbeError = NoError | Timeout | TransportClosed | OtherError

  datatype SessionResult =
    | Cold(symbols: nat, diagnostics: bool)
    | Injected(attempts: nat, code: Option<int>, retryDisabled: bool)
    | Initialized
    | Nothing

  datatype Session = Session(result: SessionResult, exitStatus: Option<int>, terminalErrors: nat, cleanupErrors: nat)

  datatype Observation = Observation(session: Option<Session>, reaped: bool, error: ProbeError)

  datatype Scenario = Scenario(
    passed: bool, retryDisabled: bool, reaped: bool, cleanupErrors: nat,
    proxyRejected: bool, minimalEnvironment: bool, redacted: bool)

  function CleanupErrors(o: Observation): nat { if o.session.Some? then o.session.value.cleanupErrors else 0 }

  // A scenario's evidence, apart from what only some scenarios report.
  function Plain(passed: bool, o: Observation): Scenario {
    Scenario(passed, false, o.reaped, CleanupErrors(o), false, false, false)
  }

  function ColdDiagnostics(o: Observation): Scenario {
    var cold := o.session.Some? && o.session.value.result.Cold?;
    Plain(o.error.NoError? && cold && o.session.value.result.symbols > 0 && o.session.value.result.diagnostics
          && o.reaped && CleanupErrors(o) == 0, o)
  }

  function InjectedError(o: Observation, code: int): Scenario {
    var injected := o.session.Some? && o.session.value.result.Injected?;
    Plain(o.error.NoError? && injected && o.session.value.result.attempts == 1
          && o.session.value.result.code == Some(code) && o.session.value.result.retryDisabled
          && o.reaped && CleanupErrors(o) == 0, o)
    .(retryDisabled := injected && o.session.value.result.retryDisabled)
  }

  function BoundedTimeout(o: Observation): Scenario { Plain(o.error.Timeout? && o.reaped && CleanupErrors(o) == 0, o) }

  function Crash(o: Observation): Scenario {
    Plain(o.error.TransportClosed? && o.reaped && o.session.Some? && o.session.value.exitStatus == Some(-9)
          && o.session.value.terminalErrors > 0 && o.session.value.cleanupErrors == 0, o)
  }

  function GracefulShutdown(o: Observation): Scenario {
    Plain(o.error.NoError? && o.session.Some? && o.session.value.result.Initialized?
          && o.session.value.exitStatus == Some(0)
          && o.session.value.terminalErrors == 0 && o.session.value.cleanupErrors == 0 && o.reaped, o)
  }

  // The measurement the wrapper printed, and whether the secrets were redacted.
  datatype Measurement = Measurement(minimal: bool, proxy: bool, poison: bool, redacted: bool)

  function EnvironmentRedaction(o: Observation, m: Measurement): Scenario {
    Plain(o.error.NoError? && o.session.Some? && o.session.value.exitStatus == Some(0) && o.reaped
          && o.session.value.cleanupErrors == 0 && m.minimal && m.proxy && m.poison && m.redacted, o)
    .(proxyRejected := m.proxy && m.poison, minimalEnvironment := m.minimal, redacted := m.redacted)
  }

  // The seven observations of one battery. A missing or non-minimal measurement raises.
  datatype Battery = Battery(
    cold: Observation, contentModified: Observation, requestCancelled: Observation, timeout: Observation,
    crash: Observation, shutdown: Observation, environment: Observation, measurement: Option<Measurement>)

  datatype Lifecycle = Lifecycle(
    retrySeamDisabled: bool, boundedTimeoutObserved: bool, crashHandled: bool, shutdownClean: bool,
    cleanupClean: bool, proxyRejected: bool, minimalEnvironmentVerified: bool, redactionVerified: bool) {
    predicate AllTrue() {
      && retrySeamDisabled && boundedTimeoutObserved && crashHandled && shutdownClean
      && cleanupClean && proxyRejected && minimalEnvironmentVerified && redactionVerified
    }
  }

  function Scenarios(b: Battery): seq<Scenario>
    requires b.measurement.Some?
  {
    [ColdDiagnostics(b.cold), InjectedError(b.contentModified, -32801), InjectedError(b.requestCancelled, -32800),
     BoundedTimeout(b.timeout), Crash(b.crash), GracefulShutdown(b.shutdown),
     EnvironmentRedaction(b.environment, b.measurement.value)]
  }

  predicate Measured(b: Battery) { b.measurement.Some? && b.measurement.value.minimal }

  // run_lifecycle_battery: the evidence, and whether some scenario failed.
  function LifecycleOf(b: Battery): Lifecycle
    requires b.measurement.Some?
  {
    var s := Scenarios(b);
    Lifecycle(s[1].retryDisabled && s[2].retryDisabled, s[3].passed, s[4].passed, s[5].passed,
              forall i :: 0 <= i < 7 ==> s[i].reaped && s[i].cleanupErrors == 0,
              s[6].proxyRejected, s[6].minimalEnvironment, s[6].redacted)
  }

  function LifecycleIssues(b: Battery): set<Issue>
    requires b.measurement.Some?
  {
    set i | 0 <= i < 7 && !Scenarios(b)[i].passed :: ScenarioFailed(i)
  }

  // --- the outcome --------------------------------------------------------------------------

  datatype Transport = WorkspaceConfiguration | InitializationOptions | OtherTransport

  // It passed when it has no issue.
  datatype Witness = Witness(
    issues: set<string>, transport: Transport, interpreterMatches: bool, payloadDigest: bool, applicationProven: bool,
    requests: nat)
  {
    predicate Passed() { issues == {} }
  }

  // _configuration_conclusive for Pyright.
  predicate Conclusive(w: Witness) {
    && w.transport.WorkspaceConfiguration? && w.interpreterMatches && w.payloadDigest
    && w.applicationProven && w.requests > 0
  }

  datatype Disposition = Pass | Fail | ConfigurationInconclusive

  datatype Outcome = Outcome(
    capabilities: map<Capability, CapabilityEvidence>, advertised: set<Capability>, lifecycle: Lifecycle,
    disposition: Disposition, issues: set<Issue>, boundWitness: Option<bool>)

  function ProbeCapabilities(session: ProbeSession): map<Capability, CapabilityEvidence> {
    map c | c in PROBED :: EvidenceIn(session, c)
  }

  function CollectedIssues(session: ProbeSession, b: Battery, w: Witness): set<Issue>
    requires Measured(b)
  {
    ProbeIssues(session) + LifecycleIssues(b) + set text | text in w.issues :: WitnessIssue(text)
  }

  function DispositionOf(session: ProbeSession, b: Battery, w: Witness): Disposition
    requires Measured(b)
  {
    if !Conclusive(w) then ConfigurationInconclusive
    else if !w.Passed() || ProbeIssues(session) != {} || LifecycleIssues(b) != {} then Fail
    else Pass
  }

  function IssuesOf(session: ProbeSession, b: Battery, w: Witness): set<Issue>
    requires Measured(b)
  {
    var collected := CollectedIssues(session, b, w);
    match DispositionOf(session, b, w)
    case ConfigurationInconclusive => collected + {Inconclusive}
    case Fail => if collected == {} then {WitnessFailed} else collected
    case Pass => {}
  }

  // _finalize_candidate_outcome and bind_candidate_protocol_witness; None when the record refuses.
  function Finalize(session: ProbeSession, b: Battery, w: Witness): Option<Outcome>
    requires Measured(b)
  {
    var disposition := DispositionOf(session, b, w);
    var outcome := Outcome(ProbeCapabilities(session), session.advertised, LifecycleOf(b),
                           disposition, IssuesOf(session, b, w), Some(w.Passed()));
    if disposition == ConfigurationInconclusive && w.Passed() then None else Some(outcome)
  }

  // --- the receipt's demands ----------------------------------------------------------------

  predicate NegativeFact(o: Outcome) {
    || o.boundWitness == Some(false)
    || (exists c :: c in o.capabilities && c in REQUIRED
                    && (o.capabilities[c].accepted == Some(false) || o.capabilities[c].normalized == Some(false)))
    || !o.lifecycle.AllTrue()
  }

  // _require_candidate_protocol_evidence for Pyright.
  predicate EvidenceCoherent(o: Outcome) {
    && (o.disposition == Pass ==> o.issues == {})
    && (o.disposition != Pass ==> o.issues != {} && forall i :: i in o.issues ==> !BlankIssue(i))
    && o.capabilities.Keys == PROBED
    && (forall c :: c in o.capabilities ==> CapabilityCoherent(c, o.capabilities[c], o.advertised))
    && (o.disposition == Fail ==> NegativeFact(o))
  }

  predicate CapabilityCoherent(c: Capability, e: CapabilityEvidence, advertised: set<Capability>) {
    && e.advertised == (c in advertised)
    && (if e.advertised then
          e.accepted.Some? && e.normalized.Some? && (e.normalized.value ==> e.accepted.value)
        else (e.accepted, e.normalized) in {(None, None), (Some(false), Some(false))})
  }

  // _require_affirmative_candidate_evidence
  predicate Affirmative(o: Outcome) {
    && o.boundWitness == Some(true)
    && (forall c :: c in o.capabilities && c in REQUIRED ==>
          && o.capabilities[c].advertised
          && o.capabilities[c].accepted == Some(true) && o.capabilities[c].normalized == Some(true))
    && o.lifecycle.AllTrue()
  }

  // A battery without issues has all eight flags.
  lemma CleanBatteryHasAllFlags(b: Battery)
    requires Measured(b) && LifecycleIssues(b) == {}
    ensures LifecycleOf(b).AllTrue()
  {
    var s := Scenarios(b);
    assert forall i :: 0 <= i < 7 && !s[i].passed ==> ScenarioFailed(i) in LifecycleIssues(b);
    assert s[0].passed && s[1].passed && s[2].passed && s[3].passed && s[4].passed && s[5].passed && s[6].passed;
    forall i | 0 <= i < 7 ensures s[i].reaped && s[i].cleanupErrors == 0 {
      assert s[i].passed;
    }
  }

  // Everything a survivor must show: each required capability advertised, accepted and
  // normalized, each lifecycle flag, the witness, and no issue.
  predicate Affirmed(o: Outcome) {
    && o.issues == {} && o.boundWitness == Some(true)
    && o.lifecycle == Lifecycle(true, true, true, true, true, true, true, true)
    && (forall c :: c in {Definition, DocumentSymbols, References, WorkspaceSymbols} ==>
          c in o.capabilities && c in o.advertised
          && o.capabilities[c] == CapabilityEvidence(true, Some(true), Some(true)))
  }

  // The fifth capability is optional, but what is said about it must fit together.
  predicate ImplementationFits(o: Outcome) {
    && o.capabilities.Keys == {Definition, DocumentSymbols, Implementation, References, WorkspaceSymbols}
    && var e := o.capabilities[Implementation];
    && e.advertised == (Implementation in o.advertised)
    && (e.accepted.Some? <==> e.normalized.Some?)
    && (e.advertised ==> e.accepted.Some?)
    && (e.accepted.Some? ==> (e.normalized.value ==> e.accepted.value) && (e.accepted.value ==> e.advertised))
  }

  // The receipt takes a pass exactly when it shows all of that.
  lemma PassIsTakenExactlyWhen(o: Outcome)
    requires o.disposition == Pass
    ensures EvidenceCoherent(o) && Affirmative(o) <==> Affirmed(o) && ImplementationFits(o)
  {
    if EvidenceCoherent(o) && Affirmative(o) {
      forall c | c in {Definition, DocumentSymbols, References, WorkspaceSymbols}
        ensures c in o.capabilities && c in o.advertised
        ensures o.capabilities[c] == CapabilityEvidence(true, Some(true), Some(true))
      {
        assert c in REQUIRED && CapabilityCoherent(c, o.capabilities[c], o.advertised);
      }
      assert CapabilityCoherent(Implementation, o.capabilities[Implementation], o.advertised);
    }
    if Affirmed(o) && ImplementationFits(o) {
      forall c | c in o.capabilities ensures CapabilityCoherent(c, o.capabilities[c], o.advertised) {
        assert c != Implementation ==> c in {Definition, DocumentSymbols, References, WorkspaceSymbols};
        var e := o.capabilities[c];
        assert !e.advertised && e.accepted.Some? ==> (e.accepted, e.normalized) == (Some(false), Some(false));
      }
      assert REQUIRED == {Definition, DocumentSymbols, References, WorkspaceSymbols};
    }
  }

  /**
   * Producer and checker agree on survivors: every Pyright outcome finalised as pass satisfies
   * both of the receipt's evidence checks, and shows everything a survivor must.
   */
  lemma SurvivorsSatisfyTheReceipt(session: ProbeSession, b: Battery, w: Witness)
    requires Measured(b) && Finalize(session, b, w).Some? && Finalize(session, b, w).value.disposition == Pass
    ensures EvidenceCoherent(Finalize(session, b, w).value) && Affirmative(Finalize(session, b, w).value)
    ensures Affirmed(Finalize(session, b, w).value)
  {
    CleanBatteryHasAllFlags(b);
    forall c | c in REQUIRED
      ensures c in session.advertised && ObservedIn(session, c).accepted && ObservedIn(session, c).normalized
    {
      CleanProbe(session, c);
    }
    CapabilitiesCoherentExactlyWhen(session);
    CapabilitiesAre(session);
    PassIsTakenExactlyWhen(Finalize(session, b, w).value);
  }

  // --- the raw inputs -----------------------------------------------------------------------

  // The server answered the request, and not with an error.
  predicate Answered(session: ProbeSession, c: Capability) {
    c in session.responses && session.responses[c] != ErrorResponse
  }

  // It answered with evidence.
  predicate Proven(session: ProbeSession, c: Capability) {
    c in session.responses && session.responses[c] == Evidence
  }

  // No capability that was asked for without being advertised was answered.
  predicate NothingUnadvertisedAccepted(session: ProbeSession) {
    forall c :: c in {Definition, DocumentSymbols, References, WorkspaceSymbols} && c !in session.advertised ==>
      !Answered(session, c)
  }

  // Some required capability was not answered with evidence.
  predicate WeakCapability(session: ProbeSession) {
    exists c :: c in {Definition, DocumentSymbols, References, WorkspaceSymbols} && !Proven(session, c)
  }

  // A session that ended without cleanup errors, or none.
  predicate Tidy(o: Observation) { o.reaped && (o.session.Some? ==> o.session.value.cleanupErrors == 0) }

  predicate ColdWell(o: Observation) {
    && o.error == NoError && Tidy(o) && o.session.Some?
    && o.session.value.result.Cold? && o.session.value.result.symbols > 0 && o.session.value.result.diagnostics
  }

  predicate RefusedOnce(o: Observation, code: int) {
    o.error == NoError && Tidy(o) && o.session.Some? && o.session.value.result == Injected(1, Some(code), true)
  }

  predicate CrashedWell(o: Observation) {
    && o.error == TransportClosed && Tidy(o) && o.session.Some?
    && o.session.value.exitStatus == Some(-9) && o.session.value.terminalErrors > 0
  }

  predicate ShutWell(o: Observation) {
    && o.error == NoError && Tidy(o) && o.session.Some? && o.session.value.result == Initialized
    && o.session.value.exitStatus == Some(0) && o.session.value.terminalErrors == 0
  }

  predicate EnvironmentWell(o: Observation, m: Measurement) {
    && o.error == NoError && Tidy(o) && o.session.Some? && o.session.value.exitStatus == Some(0)
    && m == Measurement(true, true, true, true)
  }

  // The conditions of the seven observations.
  predicate BatteryWell(b: Battery)
    requires Measured(b)
  {
    && ColdWell(b.cold) && RefusedOnce(b.contentModified, -32801) && RefusedOnce(b.requestCancelled, -32800)
    && b.timeout.error == Timeout && Tidy(b.timeout) && CrashedWell(b.crash) && ShutWell(b.shutdown)
    && EnvironmentWell(b.environment, b.measurement.value)
  }

  predicate RetryDisabled(o: Observation) {
    o.session.Some? && o.session.value.result.Injected? && o.session.value.result.retryDisabled
  }

  // What the eight lifecycle flags ask of the observations.
  predicate FlagsWell(b: Battery)
    requires Measured(b)
  {
    && RetryDisabled(b.contentModified) && RetryDisabled(b.requestCancelled)
    && b.timeout.error == Timeout && CrashedWell(b.crash) && ShutWell(b.shutdown)
    && Tidy(b.cold) && Tidy(b.contentModified) && Tidy(b.requestCancelled) && Tidy(b.timeout) && Tidy(b.environment)
    && b.measurement.value == Measurement(true, true, true, true)
  }

  predicate ProbeWell(session: ProbeSession) {
    && (forall c :: c in {Definition, DocumentSymbols, References, WorkspaceSymbols} ==>
          c in session.advertised && Proven(session, c))
    && session.terminalErrors == {} && session.cleanupErrors == 0 && !session.closeError
    && session.exitStatus in {None, Some(0)}
  }

  // The witness shows that the configuration was applied.
  predicate Attributed(w: Witness) {
    && w.transport == WorkspaceConfiguration && w.interpreterMatches && w.payloadDigest
    && w.applicationProven && w.requests > 0
  }

  lemma ScenarioPasses(b: Battery)
    requires Measured(b)
    ensures var s := Scenarios(b);
            && (s[0].passed <==> ColdWell(b.cold)) && (s[1].passed <==> RefusedOnce(b.contentModified, -32801))
            && (s[2].passed <==> RefusedOnce(b.requestCancelled, -32800))
            && (s[3].passed <==> b.timeout.error == Timeout && Tidy(b.timeout))
            && (s[4].passed <==> CrashedWell(b.crash)) && (s[5].passed <==> ShutWell(b.shutdown))
            && (s[6].passed <==> EnvironmentWell(b.environment, b.measurement.value))
  {
  }

  lemma BatteryPassesExactly(b: Battery)
    requires Measured(b)
    ensures LifecycleIssues(b) == {} <==> BatteryWell(b)
  {
    var s := Scenarios(b);
    ScenarioPasses(b);
    assert forall i :: 0 <= i < 7 && !s[i].passed ==> ScenarioFailed(i) in LifecycleIssues(b);
    if LifecycleIssues(b) == {} {
      assert s[0].passed && s[1].passed && s[2].passed && s[3].passed && s[4].passed && s[5].passed && s[6].passed;
    }
  }

  // No process and no cleanup error is left of any of the seven.
  predicate AllTidy(b: Battery) {
    && Tidy(b.cold) && Tidy(b.contentModified) && Tidy(b.requestCancelled) && Tidy(b.timeout) && Tidy(b.crash)
    && Tidy(b.shutdown) && Tidy(b.environment)
  }

  lemma CleanupIs(b: Battery)
    requires Measured(b)
    ensures (forall i :: 0 <= i < 7 ==> Scenarios(b)[i].reaped && Scenarios(b)[i].cleanupErrors == 0) <==> AllTidy(b)
  {
    var s := Scenarios(b);
    assert (s[0].reaped && s[0].cleanupErrors == 0 <==> Tidy(b.cold))
        && (s[1].reaped && s[1].cleanupErrors == 0 <==> Tidy(b.contentModified))
        && (s[2].reaped && s[2].cleanupErrors == 0 <==> Tidy(b.requestCancelled))
        && (s[3].reaped && s[3].cleanupErrors == 0 <==> Tidy(b.timeout))
        && (s[4].reaped && s[4].cleanupErrors == 0 <==> Tidy(b.crash))
        && (s[5].reaped && s[5].cleanupErrors == 0 <==> Tidy(b.shutdown))
        && (s[6].reaped && s[6].cleanupErrors == 0 <==> Tidy(b.environment));
  }

  // Each lifecycle flag, from the observations.
  lemma FlagsAre(b: Battery)
    requires Measured(b)
    ensures var m := b.measurement.value;
            LifecycleOf(b) ==
            Lifecycle(RetryDisabled(b.contentModified) && RetryDisabled(b.requestCancelled),
                      b.timeout.error == Timeout && Tidy(b.timeout), CrashedWell(b.crash), ShutWell(b.shutdown),
                      AllTidy(b), m.proxy && m.poison, m.minimal, m.redacted)
  {
    ScenarioPasses(b);
    CleanupIs(b);
  }

  lemma FlagsExactly(b: Battery)
    requires Measured(b)
    ensures LifecycleOf(b).AllTrue() <==> FlagsWell(b)
  {
    FlagsAre(b);
  }

  // The evidence recorded for a capability: unadvertised implementation is not asked for.
  lemma EvidenceIs(session: ProbeSession, c: Capability)
    ensures var asked := c != Implementation || c in session.advertised;
            EvidenceIn(session, c) ==
            CapabilityEvidence(c in session.advertised, Some(asked && Answered(session, c)),
                               Some(asked && Proven(session, c)))
  {
  }

  lemma ObservedRaw(session: ProbeSession, c: Capability)
    requires c != Implementation
    ensures ObservedIn(session, c).accepted <==> Answered(session, c)
    ensures ObservedIn(session, c).normalized <==> Proven(session, c)
    ensures ObservedIn(session, c).ready <==> Proven(session, c)
  {
  }

  lemma ProbePassesExactly(session: ProbeSession)
    ensures ProbeIssues(session) == {} <==> ProbeWell(session)
  {
    forall c | c in REQUIRED
      ensures ObservedIn(session, c).accepted <==> Answered(session, c)
      ensures ObservedIn(session, c).normalized <==> Proven(session, c)
      ensures ObservedIn(session, c).ready <==> Proven(session, c)
    {
      ObservedRaw(session, c);
    }
    if ProbeIssues(session) == {} {
      forall c | c in REQUIRED ensures c in session.advertised && Proven(session, c) { CleanProbe(session, c); }
      CleanEnd(session);
    } else if ProbeWell(session) {
      assert Definition in REQUIRED && ObservedIn(session, Definition).ready;
      WellProbeHasNoIssue(session);
    }
  }

  lemma CleanEnd(session: ProbeSession)
    requires ProbeIssues(session) == {}
    ensures session.terminalErrors == {} && session.cleanupErrors == 0 && !session.closeError
    ensures session.exitStatus in {None, Some(0)}
  {
    assert forall text :: text in session.terminalErrors ==> TerminalError(text) in ProbeIssues(session);
    assert session.cleanupErrors != 0 ==> CleanupError in ProbeIssues(session);
    assert session.closeError ==> CloseError in ProbeIssues(session);
    assert session.exitStatus !in {None, Some(0)} ==> ExitStatus in ProbeIssues(session);
  }

  lemma WellProbeHasNoIssue(session: ProbeSession)
    requires ProbeWell(session)
    requires forall c :: c in REQUIRED ==>
               ObservedIn(session, c).accepted && ObservedIn(session, c).normalized && ObservedIn(session, c).ready
    ensures ProbeIssues(session) == {}
  {
    assert Definition in REQUIRED && ObservedIn(session, Definition).ready;
  }

  /**
   * The gate, from the raw inputs. A witness that does not show its configuration is refused if
   * it passed and inconclusive otherwise. With one that does, the candidate passes exactly when
   * every required capability was advertised and answered with evidence, the session ended
   * cleanly, the seven observations are as they should be, and the witness has no issue.
   */
  lemma GateDecides(session: ProbeSession, b: Battery, w: Witness)
    requires Measured(b)
    ensures Finalize(session, b, w).None? <==> !Attributed(w) && w.issues == {}
    ensures Finalize(session, b, w).Some? ==>
            Finalize(session, b, w).value.disposition ==
            if !Attributed(w) then ConfigurationInconclusive
            else if ProbeWell(session) && BatteryWell(b) && w.issues == {} then Pass else Fail
  {
    ProbePassesExactly(session);
    BatteryPassesExactly(b);
  }

  // The condition of one of the seven observations, in the order they are made.
  predicate ScenarioWell(b: Battery, i: nat)
    requires Measured(b)
  {
    match i
    case 0 => ColdWell(b.cold)
    case 1 => RefusedOnce(b.contentModified, -32801)
    case 2 => RefusedOnce(b.requestCancelled, -32800)
    case 3 => b.timeout.error == Timeout && Tidy(b.timeout)
    case 4 => CrashedWell(b.crash)
    case 5 => ShutWell(b.shutdown)
    case 6 => EnvironmentWell(b.environment, b.measurement.value)
    case _ => true
  }

  // When an issue is raised, from the raw inputs.
  predicate Raised(session: ProbeSession, b: Battery, w: Witness, issue: Issue)
    requires Measured(b)
  {
    match issue
    case NotAdvertised(c) =>
      c in {Definition, DocumentSymbols, References, WorkspaceSymbols} && c !in session.advertised
    case NotNormalized(c) =>
      && c in {Definition, DocumentSymbols, References, WorkspaceSymbols}
      && c in session.advertised && !Proven(session, c)
    case NotReady =>
      forall c :: c in {Definition, DocumentSymbols, References, WorkspaceSymbols} ==> !Proven(session, c)
    case TerminalError(text) => text in session.terminalErrors
    case CleanupError => session.cleanupErrors > 0
    case CloseError => session.closeError
    case ExitStatus => session.exitStatus.Some? && session.exitStatus != Some(0)
    case ScenarioFailed(i) => !ScenarioWell(b, i)
    case WitnessIssue(text) => text in w.issues
    case WitnessFailed => false
    case Inconclusive => !Attributed(w)
  }

  predicate AboutCapabilities(issue: Issue) { issue.NotAdvertised? || issue.NotNormalized? || issue.NotReady? }

  predicate AboutTheEnd(issue: Issue) {
    issue.TerminalError? || issue.CleanupError? || issue.CloseError? || issue.ExitStatus?
  }

  lemma CapabilityIssuesAre(session: ProbeSession, b: Battery, w: Witness, issue: Issue)
    requires Measured(b)
    ensures issue in CapabilityIssues(session) <==> AboutCapabilities(issue) && Raised(session, b, w, issue)
  {
    forall c | c in REQUIRED
      ensures ObservedIn(session, c).accepted && ObservedIn(session, c).normalized <==> Proven(session, c)
      ensures ObservedIn(session, c).ready <==> Proven(session, c)
    {
      ObservedRaw(session, c);
    }
  }

  lemma EndIssuesAre(session: ProbeSession, b: Battery, w: Witness, issue: Issue)
    requires Measured(b)
    ensures issue in EndIssues(session) <==> AboutTheEnd(issue) && Raised(session, b, w, issue)
  {
  }

  lemma FailedScenarios(b: Battery, i: nat)
    requires Measured(b)
    ensures i < 7 ==> (Scenarios(b)[i].passed <==> ScenarioWell(b, i))
    ensures i >= 7 ==> ScenarioWell(b, i)
  {
    ScenarioPasses(b);
  }

  lemma LifecycleIssuesAre(b: Battery, issue: Issue)
    requires Measured(b)
    ensures issue in LifecycleIssues(b) <==> issue.ScenarioFailed? && !ScenarioWell(b, issue.index)
  {
    if issue.ScenarioFailed? { FailedScenarios(b, issue.index); }
  }

  lemma CollectedAre(session: ProbeSession, b: Battery, w: Witness, issue: Issue)
    requires Measured(b)
    ensures issue in CollectedIssues(session, b, w) <==> !issue.Inconclusive? && Raised(session, b, w, issue)
  {
    CapabilityIssuesAre(session, b, w, issue);
    EndIssuesAre(session, b, w, issue);
    LifecycleIssuesAre(b, issue);
  }

  // Every outcome that is no pass carries exactly the issues the raw inputs raise.
  lemma IssuesAreRaised(session: ProbeSession, b: Battery, w: Witness, issue: Issue)
    requires Measured(b) && DispositionOf(session, b, w) != Pass
    ensures issue in IssuesOf(session, b, w) <==> Raised(session, b, w, issue)
  {
    CollectedAre(session, b, w, issue);
    if DispositionOf(session, b, w) == Fail { SomethingWasCollected(session, b, w); }
  }

  lemma SomethingWasCollected(session: ProbeSession, b: Battery, w: Witness)
    requires Measured(b) && DispositionOf(session, b, w) == Fail
    ensures CollectedIssues(session, b, w) != {}
  {
    if w.issues != {} {
      var text :| text in w.issues;
      assert WitnessIssue(text) in CollectedIssues(session, b, w);
    } else if ProbeIssues(session) != {} {
      var i :| i in ProbeIssues(session);
      assert i in CollectedIssues(session, b, w);
    } else {
      var i :| i in LifecycleIssues(b);
      assert i in CollectedIssues(session, b, w);
    }
  }

  lemma CapabilitiesAre(session: ProbeSession)
    ensures ProbeCapabilities(session).Keys == PROBED
    ensures forall c :: c in PROBED ==> ProbeCapabilities(session)[c] == EvidenceIn(session, c)
  {
  }

  lemma CapabilitiesCoherentExactlyWhen(session: ProbeSession)
    ensures var capabilities := ProbeCapabilities(session);
            (forall c :: c in capabilities ==> CapabilityCoherent(c, capabilities[c], session.advertised))
            <==> NothingUnadvertisedAccepted(session)
  {
    var capabilities := ProbeCapabilities(session);
    CapabilitiesAre(session);
    forall c | c in PROBED
      ensures CapabilityCoherent(c, capabilities[c], session.advertised) <==>
              (c != Implementation && c !in session.advertised ==> !Answered(session, c))
    {
      CapabilityCoherentExactly(session, c);
    }
  }

  lemma CapabilityCoherentExactly(session: ProbeSession, c: Capability)
    requires c in PROBED
    ensures CapabilityCoherent(c, EvidenceIn(session, c), session.advertised) <==>
            (c != Implementation && c !in session.advertised ==> !Answered(session, c))
  {
    assert ObservedIn(session, c).normalized ==> ObservedIn(session, c).accepted;
    if c != Implementation { ObservedRaw(session, c); }
  }

  lemma NegativeFactExactlyWhen(session: ProbeSession, o: Outcome)
    requires o.capabilities == ProbeCapabilities(session) && o.boundWitness.Some?
    ensures NegativeFact(o) <==> !o.boundWitness.value || WeakCapability(session) || !o.lifecycle.AllTrue()
  {
    CapabilitiesAre(session);
    assert REQUIRED <= PROBED;
    forall c | c in REQUIRED
      ensures !Proven(session, c) <==>
              o.capabilities[c].accepted == Some(false) || o.capabilities[c].normalized == Some(false)
    {
      ObservedRaw(session, c);
    }
  }

  // There is something to read in the text.
  predicate Legible(text: string) { exists i :: 0 <= i < |text| && !LockParser.IsSpace(text[i]) }

  lemma LegibleIs(text: string)
    ensures Legible(text) <==> !Blank(text)
  {
    LineFolding.StripOfBlank(text);
  }

  // The texts the harness passes on are not blank.
  predicate NoBlankText(session: ProbeSession, w: Witness) {
    && (forall text :: text in session.terminalErrors ==> Legible(text))
    && (forall text :: text in w.issues ==> Legible(text))
  }

  lemma BlankProbeIssues(session: ProbeSession, i: Issue)
    requires i.TerminalError? || BlankIssue(i)
    ensures i in ProbeIssues(session) <==> i.TerminalError? && i.text in session.terminalErrors
  {
  }

  lemma BlankCollectedIssues(session: ProbeSession, b: Battery, w: Witness, i: Issue)
    requires Measured(b) && BlankIssue(i)
    ensures i in CollectedIssues(session, b, w) <==>
            if i.TerminalError? then i.text in session.terminalErrors else i.text in w.issues
  {
    BlankProbeIssues(session, i);
    assert i !in LifecycleIssues(b);
  }

  lemma IssuesReadableExactlyWhen(session: ProbeSession, b: Battery, w: Witness)
    requires Measured(b) && DispositionOf(session, b, w) != Pass
    ensures IssuesOf(session, b, w) != {}
    ensures (forall i :: i in IssuesOf(session, b, w) ==> !BlankIssue(i)) <==> NoBlankText(session, w)
  {
    var issues := IssuesOf(session, b, w);
    forall i | BlankIssue(i)
      ensures i in issues <==> if i.TerminalError? then i.text in session.terminalErrors else i.text in w.issues
    {
      BlankCollectedIssues(session, b, w, i);
    }
    forall text ensures Legible(text) <==> !Blank(text) { LegibleIs(text); }
    assert forall text :: Blank(text) ==> BlankIssue(TerminalError(text)) && BlankIssue(WitnessIssue(text));
  }

  /**
   * They do not agree on other outcomes. A finalised Pyright outcome that is no pass is coherent
   * for the receipt exactly when nothing unadvertised was accepted, no text the harness passed on
   * is blank, and a failure left a negative fact: a failed witness, a required capability not
   * accepted and normalized, or a false flag.
   */
  lemma FailuresSatisfyTheReceiptExactlyWhen(session: ProbeSession, b: Battery, w: Witness)
    requires Measured(b) && Finalize(session, b, w).Some? && Finalize(session, b, w).value.disposition != Pass
    ensures var o := Finalize(session, b, w).value;
            EvidenceCoherent(o) <==>
            && NothingUnadvertisedAccepted(session) && NoBlankText(session, w)
            && (o.disposition == Fail ==> w.issues != {} || WeakCapability(session) || !FlagsWell(b))
  {
    var o := Finalize(session, b, w).value;
    CapabilitiesCoherentExactlyWhen(session);
    NegativeFactExactlyWhen(session, o);
    IssuesReadableExactlyWhen(session, b, w);
    FlagsExactly(b);
    assert o.capabilities.Keys == PROBED;
  }

  // A battery in which everything went well.
  function CleanBattery(): Battery {
    var clean := (result: SessionResult) => Observation(Some(Session(result, Some(0), 0, 0)), true, NoError);
    Battery(
      clean(Cold(1, true)), clean(Injected(1, Some(-32801), true)), clean(Injected(1, Some(-32800), true)),
      Observation(None, true, Timeout), Observation(Some(Session(Nothing, Some(-9), 1, 0)), true, TransportClosed),
      clean(Initialized), clean(Initialized), Some(Measurement(true, true, true, true)))
  }

  lemma CleanBatteryIsClean(b: Battery)
    requires b == CleanBattery()
    ensures Measured(b) && LifecycleIssues(b) == {} && LifecycleOf(b).AllTrue()
  {
    var s := Scenarios(b);
    assert s[0].passed && s[1].passed && s[2].passed && s[3].passed && s[4].passed && s[5].passed && s[6].passed;
    CleanBatteryHasAllFlags(b);
  }

  // A session in which every capability was advertised and well answered.
  function AnsweredSession(terminalErrors: set<string>, closeError: bool): ProbeSession {
    ProbeSession(PROBED, map c | c in PROBED :: Evidence, terminalErrors, 0, closeError, Some(0))
  }

  lemma AnsweredSessionIsStrong(terminalErrors: set<string>, closeError: bool)
    ensures var session := AnsweredSession(terminalErrors, closeError);
            NothingUnadvertisedAccepted(session) && !WeakCapability(session)
  {
    var session := AnsweredSession(terminalErrors, closeError);
    forall c | c in PROBED ensures ObservedIn(session, c) == Observed(true, true, true) {
      assert c in session.responses;
    }
    assert REQUIRED <= PROBED;
  }

  // Such a refused failure exists: everything was observed, but the document could not be closed.
  lemma RefusedFailureExists(b: Battery) returns (session: ProbeSession, w: Witness)
    requires b == CleanBattery() && Measured(b)
    ensures Finalize(session, b, w).Some? && Finalize(session, b, w).value.disposition == Fail
    ensures !EvidenceCoherent(Finalize(session, b, w).value)
  {
    CleanBatteryIsClean(b);
    session := AnsweredSession({}, true);
    AnsweredSessionIsStrong({}, true);
    w := Witness({}, WorkspaceConfiguration, true, true, true, 1);
    assert CloseError in ProbeIssues(session);
    FailuresSatisfyTheReceiptExactlyWhen(session, b, w);
  }

  // So does one that is refused although its negative fact is there: the reader died of an
  // exception without a text.
  lemma BlankErrorIsRefused(b: Battery) returns (session: ProbeSession, w: Witness)
    requires b == CleanBattery() && Measured(b)
    ensures Finalize(session, b, w).Some? && Finalize(session, b, w).value.disposition == Fail
    ensures NothingUnadvertisedAccepted(session) && NegativeFact(Finalize(session, b, w).value)
    ensures !EvidenceCoherent(Finalize(session, b, w).value)
  {
    CleanBatteryIsClean(b);
    session := AnsweredSession({""}, false);
    AnsweredSessionIsStrong({""}, false);
    w := Witness({"protocol witness recorded 1 terminal error(s)"}, WorkspaceConfiguration, true, true, true, 1);
    assert "" in session.terminalErrors && Blank("");
    FailuresSatisfyTheReceiptExactlyWhen(session, b, w);
    NegativeFactExactlyWhen(session, Finalize(session, b, w).value);
  }
}
