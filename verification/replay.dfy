/**
 * Replaying fetched records into a validated log state, with the strict
 * "registry index greater than the head" skip rule shared by the operator
 * log and every package log.
 */
module LogReplay {
  import opened Wrappers
  import opened Types
  import opened Errors

  /** The skip rule: a record is applied only when no head is held yet or its index is strictly greater. */
  predicate Admits(head: Option<nat>, index: nat)
  {
    head.None? || index > head.value
  }

  /** `a` is no lower than `b`, where an absent index is below every index. */
  predicate AtLeast(a: Option<nat>, b: Option<nat>)
  {
    b.None? || (a.Some? && a.value >= b.value)
  }

  predicate AllDecoded(records: seq<FetchedRecord>)
  {
    forall i :: 0 <= i < |records| ==> records[i].envelope.Some?
  }

  function IndexOf(r: FetchedRecord): nat
    requires r.envelope.Some?
  {
    r.envelope.value.registryIndex
  }

  /** Why replaying a batch of records failed. */
  datatype ReplayError = Undecodable | Invalid(inner: ValidationError)

  /**
   * Applies `records` in order: each record is decoded; when the skip rule
   * admits it, it is validated and becomes the head (index and fetch token);
   * otherwise it is skipped without validation.
   */
  function Replay<S>(c: LogCursor<S>, records: seq<FetchedRecord>,
                     validate: (S, Envelope) -> Result<S, ValidationError>): (r: Result<LogCursor<S>, ReplayError>)
    ensures r.Success? ==> AtLeast(r.value.headIndex, c.headIndex)
    ensures r.Success? && r.value.headIndex == c.headIndex ==> r.value == c
    ensures (exists i :: 0 <= i < |records| && records[i].envelope.None?) ==> r.Failure?
    decreases |records|
  {
    if records == [] then Success(c)
    else
      match records[0].envelope
      case None => Failure(Undecodable)
      case Some(pe) =>
        if Admits(c.headIndex, pe.registryIndex) then
          match validate(c.state, pe.envelope)
          case Failure(inner) => Failure(Invalid(inner))
          case Success(s) =>
            Replay(LogCursor(s, Some(pe.registryIndex), Some(records[0].fetchToken)), records[1..], validate)
        else
          Replay(c, records[1..], validate)
  }

  /** Continues a replay result with further records. */
  function ReplayMore<S>(r: Result<LogCursor<S>, ReplayError>, records: seq<FetchedRecord>,
                         validate: (S, Envelope) -> Result<S, ValidationError>): Result<LogCursor<S>, ReplayError>
  {
    match r
    case Failure(e) => Failure(e)
    case Success(c) => Replay(c, records, validate)
  }

  /** Replaying two consecutive batches is replaying their concatenation. */
  lemma {:induction false} ReplayAppend<S>(c: LogCursor<S>, a: seq<FetchedRecord>, b: seq<FetchedRecord>,
                                           validate: (S, Envelope) -> Result<S, ValidationError>)
    ensures Replay(c, a + b, validate) == ReplayMore(Replay(c, a, validate), b, validate)
    decreases |a|
  {
    if a == [] {
      assert a + b == b;
    } else {
      assert (a + b)[0] == a[0];
      assert (a + b)[1..] == a[1..] + b;
      match a[0].envelope
      case None =>
      case Some(pe) =>
        if Admits(c.headIndex, pe.registryIndex) {
          match validate(c.state, pe.envelope)
          case Failure(_) =>
          case Success(s) =>
            ReplayAppend(LogCursor(s, Some(pe.registryIndex), Some(a[0].fetchToken)), a[1..], b, validate);
        } else {
          ReplayAppend(c, a[1..], b, validate);
        }
    }
  }

  /**
   * After a successful replay every record decoded, and the head index is the
   * maximum of the previous head and every fetched index: it never decreases,
   * and it is either unchanged or the index of one of the records, whose fetch
   * token became the head token.
   */
  lemma {:induction false} ReplayHeadIsMaximum<S>(c: LogCursor<S>, records: seq<FetchedRecord>,
                                                  validate: (S, Envelope) -> Result<S, ValidationError>)
    requires Replay(c, records, validate).Success?
    ensures AllDecoded(records)
    ensures AtLeast(Replay(c, records, validate).value.headIndex, c.headIndex)
    ensures forall i :: 0 <= i < |records| ==>
              records[i].envelope.Some? &&
              AtLeast(Replay(c, records, validate).value.headIndex, Some(IndexOf(records[i])))
    ensures var c' := Replay(c, records, validate).value;
            (c'.headIndex == c.headIndex && c'.headToken == c.headToken) ||
            exists i :: 0 <= i < |records| && records[i].envelope.Some? &&
              c'.headIndex == Some(IndexOf(records[i])) && c'.headToken == Some(records[i].fetchToken)
    decreases |records|
  {
    if records != [] {
      var pe := records[0].envelope.value;
      var c' := Replay(c, records, validate).value;
      if Admits(c.headIndex, pe.registryIndex) {
        var s := validate(c.state, pe.envelope).value;
        var c1 := LogCursor(s, Some(pe.registryIndex), Some(records[0].fetchToken));
        ReplayHeadIsMaximum(c1, records[1..], validate);
        forall i | 1 <= i < |records|
          ensures records[i].envelope.Some? && AtLeast(c'.headIndex, Some(IndexOf(records[i])))
        {
          assert records[i] == records[1..][i - 1];
        }
        if !(c'.headIndex == c1.headIndex && c'.headToken == c1.headToken) {
          var j :| 0 <= j < |records[1..]| && records[1..][j].envelope.Some? &&
                   c'.headIndex == Some(IndexOf(records[1..][j])) && c'.headToken == Some(records[1..][j].fetchToken);
          assert records[j + 1] == records[1..][j];
        }
      } else {
        ReplayHeadIsMaximum(c, records[1..], validate);
        forall i | 1 <= i < |records|
          ensures records[i].envelope.Some? && AtLeast(c'.headIndex, Some(IndexOf(records[i])))
        {
          assert records[i] == records[1..][i - 1];
        }
        if !(c'.headIndex == c.headIndex && c'.headToken == c.headToken) {
          var j :| 0 <= j < |records[1..]| && records[1..][j].envelope.Some? &&
                   c'.headIndex == Some(IndexOf(records[1..][j])) && c'.headToken == Some(records[1..][j].fetchToken);
          assert records[j + 1] == records[1..][j];
        }
      }
    }
  }

  /**
   * Records already covered by the head (index equal to or below it) are
   * duplicates from an overlapping fetch window: replaying them changes nothing.
   */
  lemma {:induction false} ReplaySeenRecordsIsIdentity<S>(c: LogCursor<S>, records: seq<FetchedRecord>,
                                                          validate: (S, Envelope) -> Result<S, ValidationError>)
    requires c.headIndex.Some?
    requires forall i :: 0 <= i < |records| ==>
               records[i].envelope.Some? && IndexOf(records[i]) <= c.headIndex.value
    ensures Replay(c, records, validate) == Success(c)
    decreases |records|
  {
    if records != [] {
      ReplaySeenRecordsIsIdentity(c, records[1..], validate);
    }
  }

  /**
   * Record `i` is fresh when it lies above the previous head and strictly
   * above every record fetched before it.
   */
  ghost predicate Fresh(head: Option<nat>, records: seq<FetchedRecord>, i: nat)
    requires i < |records| && AllDecoded(records)
  {
    Admits(head, IndexOf(records[i])) &&
    forall j :: 0 <= j < i ==> IndexOf(records[j]) < IndexOf(records[i])
  }

  /** The envelopes of the fresh records among the first `n`, in fetch order. */
  ghost function FreshEnvelopes(head: Option<nat>, records: seq<FetchedRecord>, n: nat): seq<Envelope>
    requires n <= |records| && AllDecoded(records)
  {
    if n == 0 then []
    else
      FreshEnvelopes(head, records, n - 1) +
      (if Fresh(head, records, n - 1) then [records[n - 1].envelope.value.envelope] else [])
  }

  /** Validates `envs` one after the other, starting from `s`. */
  function ValidateAll<S>(s: S, envs: seq<Envelope>,
                          validate: (S, Envelope) -> Result<S, ValidationError>): Result<S, ValidationError>
    decreases |envs|
  {
    if envs == [] then Success(s)
    else
      match ValidateAll(s, envs[..|envs| - 1], validate)
      case Failure(e) => Failure(e)
      case Success(s') => validate(s', envs[|envs| - 1])
  }

  /**
   * The validated state after a successful replay is exactly the state
   * obtained by validating the fresh records, and only those, in order:
   * a record is validated if and only if its index is strictly greater than
   * the previous head and than every record fetched before it.
   */
  lemma {:induction false} ReplayValidatesExactlyFreshRecords<S>(c: LogCursor<S>, records: seq<FetchedRecord>,
                                                                 validate: (S, Envelope) -> Result<S, ValidationError>)
    requires Replay(c, records, validate).Success?
    ensures AllDecoded(records)
    ensures ValidateAll(c.state, FreshEnvelopes(c.headIndex, records, |records|), validate)
            == Success(Replay(c, records, validate).value.state)
  {
    ReplayHeadIsMaximum(c, records, validate);
    assert records[..|records|] == records;
    PrefixReplayValidatesFresh(c, records, validate, |records|);
  }

  lemma {:induction false} PrefixReplayValidatesFresh<S>(c: LogCursor<S>, records: seq<FetchedRecord>,
                                                         validate: (S, Envelope) -> Result<S, ValidationError>, n: nat)
    requires AllDecoded(records)
    requires n <= |records|
    requires Replay(c, records[..n], validate).Success?
    ensures ValidateAll(c.state, FreshEnvelopes(c.headIndex, records, n), validate)
            == Success(Replay(c, records[..n], validate).value.state)
    decreases n
  {
    if n == 0 {
      assert records[..0] == [];
    } else {
      var m := n - 1;
      assert records[..n] == records[..m] + [records[m]];
      ReplayAppend(c, records[..m], [records[m]], validate);
      PrefixReplayValidatesFresh(c, records, validate, m);
      var cm := Replay(c, records[..m], validate).value;
      ReplayHeadIsMaximum(c, records[..m], validate);
      FreshIffAdmitted(c.headIndex, records, m, cm.headIndex);
      ReplaySingle(cm, records[m], validate);
      var prior := FreshEnvelopes(c.headIndex, records, m);
      var env := records[m].envelope.value.envelope;
      if Fresh(c.headIndex, records, m) {
        assert FreshEnvelopes(c.headIndex, records, n) == prior + [env];
        ValidateAllSnoc(c.state, prior, env, validate);
      } else {
        assert FreshEnvelopes(c.headIndex, records, n) == prior;
      }
    }
  }

  /**
   * The converse: when every record decodes and the fresh records validate
   * one after the other, the replay succeeds. Together with
   * `ReplayValidatesExactlyFreshRecords`, a replay of decodable records
   * succeeds exactly when its fresh records validate.
   */
  lemma {:induction false} ReplaySucceedsWhenFreshRecordsValidate<S>(c: LogCursor<S>, records: seq<FetchedRecord>,
                                                                     validate: (S, Envelope) -> Result<S, ValidationError>)
    requires AllDecoded(records)
    requires ValidateAll(c.state, FreshEnvelopes(c.headIndex, records, |records|), validate).Success?
    ensures Replay(c, records, validate).Success?
  {
    PrefixReplaySucceeds(c, records, validate, |records|);
    assert records[..|records|] == records;
  }

  lemma {:induction false} PrefixReplaySucceeds<S>(c: LogCursor<S>, records: seq<FetchedRecord>,
                                                   validate: (S, Envelope) -> Result<S, ValidationError>, n: nat)
    requires AllDecoded(records)
    requires n <= |records|
    requires ValidateAll(c.state, FreshEnvelopes(c.headIndex, records, n), validate).Success?
    ensures Replay(c, records[..n], validate).Success?
    decreases n
  {
    if n == 0 {
      assert records[..0] == [];
    } else {
      var m := n - 1;
      var prior := FreshEnvelopes(c.headIndex, records, m);
      var env := records[m].envelope.value.envelope;
      var isFresh := Fresh(c.headIndex, records, m);
      if isFresh {
        assert FreshEnvelopes(c.headIndex, records, n) == prior + [env];
        ValidateAllSnoc(c.state, prior, env, validate);
      } else {
        assert FreshEnvelopes(c.headIndex, records, n) == prior;
      }
      PrefixReplaySucceeds(c, records, validate, m);
      PrefixReplayValidatesFresh(c, records, validate, m);
      assert records[..n] == records[..m] + [records[m]];
      ReplayAppend(c, records[..m], [records[m]], validate);
      var cm := Replay(c, records[..m], validate).value;
      ReplayHeadIsMaximum(c, records[..m], validate);
      FreshIffAdmitted(c.headIndex, records, m, cm.headIndex);
      ReplaySingle(cm, records[m], validate);
    }
  }

  /** Replaying one decoded record: validate and advance when admitted, otherwise skip. */
  lemma ReplaySingle<S>(c: LogCursor<S>, r: FetchedRecord, validate: (S, Envelope) -> Result<S, ValidationError>)
    requires r.envelope.Some?
    ensures Replay(c, [r], validate) ==
            if Admits(c.headIndex, IndexOf(r)) then
              (match validate(c.state, r.envelope.value.envelope)
               case Failure(e) => Failure(Invalid(e))
               case Success(s) => Success(LogCursor(s, Some(IndexOf(r)), Some(r.fetchToken))))
            else Success(c)
  {
    assert [r][1..] == [];
  }

  lemma ValidateAllSnoc<S>(s: S, envs: seq<Envelope>, e: Envelope, validate: (S, Envelope) -> Result<S, ValidationError>)
    ensures ValidateAll(s, envs + [e], validate) ==
            match ValidateAll(s, envs, validate)
            case Failure(err) => Failure(err)
            case Success(s') => validate(s', e)
  {
    assert (envs + [e])[..|envs + [e]| - 1] == envs;
  }

  /** With the running head of the first `m` records known, the skip rule admits record `m` exactly when it is fresh. */
  lemma FreshIffAdmitted(head: Option<nat>, records: seq<FetchedRecord>, m: nat, running: Option<nat>)
    requires AllDecoded(records) && m < |records|
    requires AtLeast(running, head)
    requires forall i :: 0 <= i < |records[..m]| ==>
               records[..m][i].envelope.Some? && AtLeast(running, Some(IndexOf(records[..m][i])))
    requires running == head ||
             exists i :: 0 <= i < |records[..m]| && records[..m][i].envelope.Some? &&
               running == Some(IndexOf(records[..m][i]))
    ensures Fresh(head, records, m) <==> Admits(running, IndexOf(records[m]))
  {
    forall j | 0 <= j < m
      ensures AtLeast(running, Some(IndexOf(records[j])))
    {
      assert records[j] == records[..m][j];
    }
    if running != head {
      var i :| 0 <= i < |records[..m]| && records[..m][i].envelope.Some? &&
               running == Some(IndexOf(records[..m][i]));
      assert records[i] == records[..m][i];
    }
  }
}
