/** Quick connect: a device asks with a secret, a user authorises the code it shows, the device redeems the secret. */
module QuickConnect {
  import opened Options

  /** Nanoseconds, as time.Duration counts them. */
  const EXPIRY := 10 * 60 * 1_000_000_000
  const CODE_FLOOR := 100_000
  const CODE_SPACE := 900_000

  /** A row of quick_connect_requests; rows are indexed by their secret, and codes are unique too. */
  datatype Request = Request(code: nat, device: string, expiresAt: int, authorizedBy: Option<nat>)

  type Requests = map<string, Request>

  predicate Live(r: Request, now: int) {
    r.expiresAt > now
  }

  function Sweep(rows: Requests, now: int): Requests {
    map s | s in rows && Live(rows[s], now) :: rows[s]
  }

  predicate CodeTaken(rows: Requests, code: nat) {
    exists s :: s in rows && rows[s].code == code
  }

  ghost predicate UniqueCodes(rows: Requests) {
    forall s, t :: s in rows && t in rows && rows[s].code == rows[t].code ==> s == t
  }

  predicate Authorizable(r: Request, code: nat, now: int) {
    r.code == code && Live(r, now) && r.authorizedBy.None?
  }

  function Authorized(rows: Requests, code: nat, user: nat, now: int): Requests {
    map s | s in rows :: if Authorizable(rows[s], code, now) then rows[s].(authorizedBy := Some(user)) else rows[s]
  }

  predicate CanAuthorize(rows: Requests, code: nat, now: int) {
    exists s :: s in rows && Authorizable(rows[s], code, now)
  }

  /** The user a redemption hands over, if the secret is live and authorised. */
  function Redeemable(rows: Requests, secret: string, now: int): Option<nat> {
    if secret in rows && Live(rows[secret], now) then rows[secret].authorizedBy else None
  }

  /** Whether the insert passes both unique indexes. */
  predicate Insertable(rows: Requests, secret: string, code: nat) {
    secret !in rows && !CodeTaken(rows, code)
  }

  // ---- whole runs -----------------------------------------------------------------------------------

  datatype Event =
    | Ask(at: int, later: int, secret: string, code: nat, device: string)
    | Poll(at: int, secret: string)
    | Approve(at: int, code: nat, user: nat)
    | Claim(at: int, secret: string)
    | RemoveUser(at: int, user: nat)

  function Apply(rows: Requests, e: Event): Requests {
    match e
    case Ask(at, later, secret, code, device) =>
      var swept := Sweep(rows, at);
      if Insertable(swept, secret, code) then swept[secret := Request(code, device, later + EXPIRY, None)] else swept
    case Poll(_, _) => rows
    case Approve(at, code, user) => Authorized(rows, code, user, at)
    case Claim(at, secret) => if Redeemable(rows, secret, at).Some? then rows - {secret} else rows
    case RemoveUser(_, user) => map s | s in rows && rows[s].authorizedBy != Some(user) :: rows[s]
  }

  function Run(es: seq<Event>): Requests {
    if es == [] then map[] else Apply(Run(es[..|es| - 1]), es[|es| - 1])
  }

  /** The clock never goes back and no secret is drawn twice. */
  ghost predicate Orderly(es: seq<Event>) {
    && (forall i, j :: 0 <= i < j < |es| ==> es[i].at <= es[j].at)
    && (forall i :: 0 <= i < |es| && es[i].Ask? ==> es[i].at <= es[i].later)
    && (forall i, j :: 0 <= i < j < |es| && es[i].Ask? && es[j].Ask? ==> es[i].secret != es[j].secret)
  }

  /** What the k-th event, a redemption, hands over. */
  function Granted(es: seq<Event>, k: nat): Option<nat>
    requires k < |es|
  {
    if es[k].Claim? then Redeemable(Run(es[..k]), es[k].secret, es[k].at) else None
  }

  lemma {:induction false} CodesStayUnique(es: seq<Event>)
    ensures UniqueCodes(Run(es))
  {
    if es != [] {
      CodesStayUnique(es[..|es| - 1]);
    }
  }

  lemma OrderlyPrefix(es: seq<Event>, n: nat)
    requires Orderly(es) && n <= |es|
    ensures Orderly(es[..n])
  {
  }

  /** Event m approves the code of the request asked for at i before it expires. */
  predicate ApprovesLive(es: seq<Event>, i: nat, m: nat)
    requires i < |es| && m < |es| && es[i].Ask?
  {
    es[m].Approve? && es[m].code == es[i].code && es[m].at < es[i].later + EXPIRY
  }

  /** Event j is the first to approve, while live, the request asked for at i. */
  ghost predicate FirstApproval(es: seq<Event>, i: nat, j: nat)
    requires i < |es| && j < |es| && es[i].Ask?
  {
    i < j && ApprovesLive(es, i, j) && forall m :: i < m < j ==> !ApprovesLive(es, i, m)
  }

  /** Where a stored row comes from. */
  ghost predicate History(es: seq<Event>, secret: string, row: Request, i: nat, j: nat) {
    && i < |es| && es[i].Ask? && es[i].secret == secret && row.code == es[i].code && row.expiresAt == es[i].later + EXPIRY
    && match row.authorizedBy
       case None => forall m :: i < m < |es| ==> !ApprovesLive(es, i, m)
       case Some(user) => j < |es| && FirstApproval(es, i, j) && es[j].user == user
  }

  lemma HistoryExtends(es: seq<Event>, e: Event, secret: string, row: Request, i: nat, j: nat)
    requires History(es, secret, row, i, j)
    requires row.authorizedBy.None? ==> !(e.Approve? && e.code == row.code && e.at < row.expiresAt)
    ensures History(es + [e], secret, row, i, j)
  {
    var fs := es + [e];
    assert forall m :: 0 <= m < |es| ==> fs[m] == es[m];
    if row.authorizedBy.None? {
      forall m | i < m < |fs|
        ensures !ApprovesLive(fs, i, m)
      {
        if m < |es| {
          assert !ApprovesLive(es, i, m);
        }
      }
    } else {
      forall m | i < m < j
        ensures !ApprovesLive(fs, i, m)
      {
        assert !ApprovesLive(es, i, m);
      }
    }
  }

  /** Every stored request was asked for, and authorised, if at all, by the first live approval of its code. */
  lemma {:induction false} RowHistory(es: seq<Event>, secret: string) returns (i: nat, j: nat)
    requires Orderly(es) && secret in Run(es)
    ensures History(es, secret, Run(es)[secret], i, j)
  {
    var n := |es| - 1;
    var before, e := Run(es[..n]), es[n];
    OrderlyPrefix(es, n);
    CodesStayUnique(es[..n]);
    assert es == es[..n] + [e];
    if e.Ask? && secret == e.secret && secret !in Sweep(before, e.at) {
      i, j := n, 0;
    } else {
      i, j := RowHistory(es[..n], secret);
      var row := before[secret];
      if e.Approve? && Authorizable(row, e.code, e.at) {
        j := n;
        forall m | i < m < n
          ensures !ApprovesLive(es, i, m)
        {
          assert !ApprovesLive(es[..n], i, m);
        }
      } else {
        HistoryExtends(es[..n], e, secret, row, i, j);
      }
    }
  }

  /** A redemption succeeds before expiry, for the first user who approved the code while the request was live. */
  lemma RedeemedForTheFirstApprover(es: seq<Event>, k: nat) returns (i: nat, j: nat)
    requires Orderly(es) && k < |es| && Granted(es, k).Some?
    ensures i < j < k && es[i].Ask? && es[i].secret == es[k].secret
    ensures FirstApproval(es, i, j) && Granted(es, k) == Some(es[j].user)
    ensures es[j].at < es[i].later + EXPIRY && es[k].at < es[i].later + EXPIRY
  {
    OrderlyPrefix(es, k);
    i, j := RowHistory(es[..k], es[k].secret);
    forall m | i < m < j
      ensures !ApprovesLive(es, i, m)
    {
      assert !ApprovesLive(es[..k], i, m);
    }
  }

  lemma {:induction false} SpentStaysSpent(es: seq<Event>, i: nat, k: nat, l: nat)
    requires Orderly(es) && i < k <= l <= |es| && es[i].Ask? && es[i].secret !in Run(es[..k])
    ensures es[i].secret !in Run(es[..l])
  {
    if k < l {
      SpentStaysSpent(es, i, k, l - 1);
      assert es[..l][..l - 1] == es[..l - 1];
    }
  }

  /** A secret is redeemed at most once. */
  lemma RedeemedAtMostOnce(es: seq<Event>, k: nat, l: nat)
    requires Orderly(es) && k < l < |es| && es[k].Claim? && es[l].Claim? && es[k].secret == es[l].secret && Granted(es, k).Some?
    ensures Granted(es, l).None?
  {
    var i, j := RedeemedForTheFirstApprover(es, k);
    assert es[..k + 1][..k] == es[..k];
    assert es[i].secret !in Run(es[..k + 1]);
    SpentStaysSpent(es, i, k + 1, l);
  }

  // ---- the sweep in Initiate --------------------------------------------------------------------------

  /** The two tables hold the same live rows from now on. */
  ghost predicate SameLive(a: Requests, b: Requests, now: int) {
    && (forall s :: s in a && Live(a[s], now) ==> s in b && b[s] == a[s])
    && (forall s :: s in b && Live(b[s], now) ==> s in a && a[s] == b[s])
  }

  /** What the caller of a poll, an approval or a redemption is told. */
  datatype Answer = Told(request: Option<Request>) | Approved(ok: bool) | Handed(user: Option<nat>) | Nothing

  function AnswerTo(rows: Requests, e: Event): Answer {
    match e
    case Poll(at, secret) => Told(if secret in rows && Live(rows[secret], at) then Some(rows[secret]) else None)
    case Approve(at, code, _) => Approved(CanAuthorize(rows, code, at))
    case Claim(at, secret) => Handed(Redeemable(rows, secret, at))
    case _ => Nothing
  }

  function Onward(rows: Requests, es: seq<Event>): Requests {
    if es == [] then rows else Apply(Onward(rows, es[..|es| - 1]), es[|es| - 1])
  }

  ghost predicate Later(es: seq<Event>, now: int) {
    && (forall k :: 0 <= k < |es| ==> now <= es[k].at && !es[k].Ask?)
    && (forall j, k :: 0 <= j < k < |es| ==> es[j].at <= es[k].at)
  }

  lemma SameLiveLater(a: Requests, b: Requests, now: int, later: int)
    requires SameLive(a, b, now) && now <= later
    ensures SameLive(a, b, later)
  {
  }

  lemma SameLiveAnswers(a: Requests, b: Requests, e: Event)
    requires SameLive(a, b, e.at) && !e.Ask?
    ensures AnswerTo(a, e) == AnswerTo(b, e) && SameLive(Apply(a, e), Apply(b, e), e.at)
  {
    match e
    case Poll(at, secret) =>
    case Approve(at, code, user) =>
      if CanAuthorize(a, code, at) {
        var s :| s in a && Authorizable(a[s], code, at);
        assert s in b && Authorizable(b[s], code, at);
      }
      if CanAuthorize(b, code, at) {
        var s :| s in b && Authorizable(b[s], code, at);
        assert s in a && Authorizable(a[s], code, at);
      }
    case Claim(at, secret) =>
    case RemoveUser(_, _) =>
  }

  lemma {:induction false} SameLiveOnward(a: Requests, b: Requests, now: int, es: seq<Event>, last: int)
    requires SameLive(a, b, now) && Later(es, now) && now <= last && forall k :: 0 <= k < |es| ==> es[k].at <= last
    ensures SameLive(Onward(a, es), Onward(b, es), last)
  {
    if es == [] {
      SameLiveLater(a, b, now, last);
    } else {
      var n := |es| - 1;
      SameLiveOnward(a, b, now, es[..n], es[n].at);
      SameLiveAnswers(Onward(a, es[..n]), Onward(b, es[..n]), es[n]);
      SameLiveLater(Onward(a, es), Onward(b, es), es[n].at, last);
    }
  }

  /** Deleting the expired rows is never noticed by a later poll, approval or redemption. */
  lemma SweepIsUnobservable(rows: Requests, now: int, es: seq<Event>, k: nat)
    requires Later(es, now) && k < |es|
    ensures AnswerTo(Onward(Sweep(rows, now), es[..k]), es[k]) == AnswerTo(Onward(rows, es[..k]), es[k])
  {
    SameLiveOnward(Sweep(rows, now), rows, now, es[..k], es[k].at);
    SameLiveAnswers(Onward(Sweep(rows, now), es[..k]), Onward(rows, es[..k]), es[k]);
  }

  /** Only a new request notices: exactly when its secret or code is still held by rows that have all expired. */
  lemma OnlyAskingNeedsTheSweep(rows: Requests, now: int, secret: string, code: nat)
    ensures Insertable(rows, secret, code) ==> Insertable(Sweep(rows, now), secret, code)
    ensures Insertable(Sweep(rows, now), secret, code) && !Insertable(rows, secret, code) <==>
            && (secret in rows || CodeTaken(rows, code))
            && (secret in rows ==> !Live(rows[secret], now))
            && (forall s :: s in rows && rows[s].code == code ==> !Live(rows[s], now))
  {
    forall s | s in rows && Live(rows[s], now)
      ensures s in Sweep(rows, now) && Sweep(rows, now)[s] == rows[s]
    {
    }
  }

  // ---- what the answers mean --------------------------------------------------------------------------

  ghost predicate Clocked(es: seq<Event>, now: int) {
    forall k :: 0 <= k < |es| ==> es[k].at <= now
  }

  /** The insert of the request asked for at i passed both unique indexes. */
  predicate Accepted(es: seq<Event>, i: nat)
    requires i < |es| && es[i].Ask?
  {
    Insertable(Sweep(Run(es[..i]), es[i].at), es[i].secret, es[i].code)
  }

  /** Event k takes the stored request away: it redeems it, or removes the user who authorised it. */
  predicate Ends(es: seq<Event>, k: nat, secret: string)
    requires k < |es|
  {
    match es[k]
    case Claim(_, claimed) => claimed == secret && Granted(es, k).Some?
    case RemoveUser(_, user) => secret in Run(es[..k]) && Run(es[..k])[secret].authorizedBy == Some(user)
    case _ => false
  }

  /** The request asked for at i was accepted, has not expired, and nothing has taken it away. */
  ghost predicate Outstanding(es: seq<Event>, secret: string, i: nat, now: int) {
    && i < |es| && es[i].Ask? && es[i].secret == secret && Accepted(es, i)
    && now < es[i].later + EXPIRY
    && forall k :: i < k < |es| ==> !Ends(es, k, secret)
  }

  lemma OutstandingBefore(es: seq<Event>, secret: string, i: nat, now: int)
    requires es != [] && i < |es| - 1 && es[i].Ask?
    ensures var n := |es| - 1;
            Outstanding(es, secret, i, now) <==> Outstanding(es[..n], secret, i, now) && !Ends(es, n, secret)
  {
    var n := |es| - 1;
    assert es[..n][i] == es[i] && es[..n][..i] == es[..i];
    forall k | 0 <= k < n
      ensures Ends(es[..n], k, secret) <==> Ends(es, k, secret)
    {
      assert es[..n][k] == es[k] && es[..n][..k] == es[..k];
    }
    assert Accepted(es[..n], i) <==> Accepted(es, i);
  }

  /** A secret is stored only once it was asked for. */
  lemma UnaskedIsUnstored(es: seq<Event>, secret: string)
    requires Orderly(es) && forall k :: 0 <= k < |es| && es[k].Ask? ==> es[k].secret != secret
    ensures secret !in Run(es)
  {
    if secret in Run(es) {
      var i, j := RowHistory(es, secret);
    }
  }

  /** A live row is stored under a secret exactly while a request for it is outstanding. */
  lemma {:induction false} StoredIff(es: seq<Event>, secret: string, now: int)
    requires Orderly(es) && Clocked(es, now)
    ensures secret in Run(es) && Live(Run(es)[secret], now) <==> exists i: nat :: Outstanding(es, secret, i, now)
  {
    if es != [] {
      var n := |es| - 1;
      OrderlyPrefix(es, n);
      if es[n].Ask? && es[n].secret == secret {
        UnaskedIsUnstored(es[..n], secret);
        assert Outstanding(es, secret, n, now) <==> Accepted(es, n) && now < es[n].later + EXPIRY;
      } else {
        StoredIff(es[..n], secret, now);
        KeptUnlessEnded(es, secret, now);
        if Ends(es, n, secret) {
          forall i: nat
            ensures !Outstanding(es, secret, i, now)
          {
          }
        } else if exists i: nat :: Outstanding(es[..n], secret, i, now) {
          var i: nat :| Outstanding(es[..n], secret, i, now);
          OutstandingBefore(es, secret, i, now);
        } else {
          forall i: nat
            ensures !Outstanding(es, secret, i, now)
          {
            if i < n && es[i].Ask? {
              OutstandingBefore(es, secret, i, now);
            }
          }
        }
      }
    }
  }

  /** An event that is not a request for the secret keeps its live row unless it takes it away. */
  lemma KeptUnlessEnded(es: seq<Event>, secret: string, now: int)
    requires es != [] && Clocked(es, now) && !(es[|es| - 1].Ask? && es[|es| - 1].secret == secret)
    ensures var n := |es| - 1;
            secret in Run(es) && Live(Run(es)[secret], now) <==>
            secret in Run(es[..n]) && Live(Run(es[..n])[secret], now) && !Ends(es, n, secret)
  {
  }

  lemma OneAskEach(es: seq<Event>, i: nat, j: nat)
    requires Orderly(es) && i < |es| && j < |es| && es[i].Ask? && es[j].Ask? && es[i].secret == es[j].secret
    ensures i == j
  {
  }

  ghost predicate HandsOver(es: seq<Event>, secret: string, now: int, i: nat, j: nat) {
    Outstanding(es, secret, i, now) && j < |es| && FirstApproval(es, i, j)
  }

  /** A redemption hands a user over exactly when the request is outstanding and that user approved it first. */
  lemma RedeemableIff(es: seq<Event>, secret: string, now: int, user: nat)
    requires Orderly(es) && Clocked(es, now)
    ensures Redeemable(Run(es), secret, now) == Some(user) <==>
            exists i: nat, j: nat :: HandsOver(es, secret, now, i, j) && es[j].user == user
  {
    StoredIff(es, secret, now);
    if secret in Run(es) && Live(Run(es)[secret], now) {
      var i0: nat :| Outstanding(es, secret, i0, now);
      var i, j := RowHistory(es, secret);
      OneAskEach(es, i, i0);
      var row := Run(es)[secret];
      if row.authorizedBy == Some(user) {
        assert HandsOver(es, secret, now, i, j);
      }
      forall k: nat, l: nat | HandsOver(es, secret, now, k, l)
        ensures row.authorizedBy == Some(es[l].user)
      {
        OneAskEach(es, i, k);
        assert ApprovesLive(es, i, l);
      }
    }
  }

  /** The request asked for at i is outstanding, shows this code, and nobody has approved it yet. */
  ghost predicate Awaits(es: seq<Event>, code: nat, now: int, secret: string, i: nat) {
    && Outstanding(es, secret, i, now) && es[i].code == code
    && forall m :: i < m < |es| ==> !ApprovesLive(es, i, m)
  }

  /** A code can be approved exactly while it is that of an outstanding request without a live approval. */
  lemma AuthorizableIff(es: seq<Event>, code: nat, now: int)
    requires Orderly(es) && Clocked(es, now)
    ensures CanAuthorize(Run(es), code, now) <==> exists secret: string, i: nat :: Awaits(es, code, now, secret, i)
  {
    var rows := Run(es);
    if CanAuthorize(rows, code, now) {
      var s :| s in rows && Authorizable(rows[s], code, now);
      StoredIff(es, s, now);
      var i0: nat :| Outstanding(es, s, i0, now);
      var i, j := RowHistory(es, s);
      OneAskEach(es, i, i0);
      assert Awaits(es, code, now, s, i);
    }
    forall secret: string, i: nat | Awaits(es, code, now, secret, i)
      ensures CanAuthorize(rows, code, now)
    {
      StoredIff(es, secret, now);
      var i0, j := RowHistory(es, secret);
      OneAskEach(es, i, i0);
      assert Authorizable(rows[secret], code, now);
    }
  }

  /** A request is accepted exactly when its code is that of no outstanding request. */
  lemma AcceptedIff(es: seq<Event>, i: nat)
    requires Orderly(es) && i < |es| && es[i].Ask?
    ensures Accepted(es, i) <==> forall secret: string, j: nat :: Outstanding(es[..i], secret, j, es[i].at) ==> es[j].code != es[i].code
  {
    var before, at := es[..i], es[i].at;
    OrderlyPrefix(es, i);
    UnaskedIsUnstored(before, es[i].secret);
    if CodeTaken(Sweep(Run(before), at), es[i].code) {
      var s :| s in Sweep(Run(before), at) && Sweep(Run(before), at)[s].code == es[i].code;
      StoredIff(before, s, at);
      var j0: nat :| Outstanding(before, s, j0, at);
      var j, m := RowHistory(before, s);
      OneAskEach(before, j, j0);
    }
    forall secret: string, j: nat | Outstanding(before, secret, j, at) && es[j].code == es[i].code
      ensures CodeTaken(Sweep(Run(before), at), es[i].code)
    {
      StoredIff(before, secret, at);
      var j0, m := RowHistory(before, secret);
      OneAskEach(before, j, j0);
      assert secret in Sweep(Run(before), at);
    }
  }

  /** An approval is told ok exactly when it changes the table. */
  lemma ApprovalChangesIff(rows: Requests, code: nat, user: nat, now: int)
    ensures CanAuthorize(rows, code, now) <==> Authorized(rows, code, user, now) != rows
  {
    var after := Authorized(rows, code, user, now);
    forall s | s in rows
      ensures after[s] != rows[s] <==> Authorizable(rows[s], code, now)
    {
    }
    if !CanAuthorize(rows, code, now) {
      assert after == rows;
    }
  }

  lemma RunOne(es: seq<Event>, e: Event)
    ensures Run(es + [e]) == Apply(Run(es), e)
  {
    assert (es + [e])[..|es|] == es;
  }

  // ---- the service --------------------------------------------------------------------------------

  class Service {
    var rows: Requests
    /** Everything that has changed the table, in order. */
    ghost var log: seq<Event>

    ghost predicate Valid()
      reads this
    {
      rows == Run(log) && UniqueCodes(rows)
    }

    /** The clock is read twice, for the sweep and for the expiry. A taken secret or code refuses the insert, not the sweep. */
    method Initiate(now: int, later: int, secret: string, n: nat, device: string) returns (request: Option<Request>)
      requires Valid() && n < CODE_SPACE
      modifies this
      ensures Valid() && log == old(log) + [Ask(now, later, secret, CODE_FLOOR + n, device)]
      ensures request.Some? <==> Insertable(Sweep(old(rows), now), secret, CODE_FLOOR + n)
      ensures request.Some? ==> request.value == Request(CODE_FLOOR + n, device, later + EXPIRY, None)
      ensures rows == if request.Some? then Sweep(old(rows), now)[secret := request.value] else Sweep(old(rows), now)
    {
      RunOne(log, Ask(now, later, secret, CODE_FLOOR + n, device));
      log := log + [Ask(now, later, secret, CODE_FLOOR + n, device)];
      rows := Sweep(rows, now);
      if !Insertable(rows, secret, CODE_FLOOR + n) {
        return None;
      }
      var created := Request(CODE_FLOOR + n, device, later + EXPIRY, None);
      rows := rows[secret := created];
      return Some(created);
    }

    /** On an orderly history: answered exactly while a request for the secret is outstanding, and with that request. */
    method Pending(now: int, secret: string) returns (request: Option<Request>)
      requires Valid()
      ensures Told(request) == AnswerTo(rows, Poll(now, secret))
      ensures Orderly(log) && Clocked(log, now) ==> (request.Some? <==> exists i: nat :: Outstanding(log, secret, i, now))
      ensures Orderly(log) && request.Some? ==> exists i: nat, j: nat :: History(log, secret, request.value, i, j)
    {
      request := None;
      if secret in rows && Live(rows[secret], now) {
        request := Some(rows[secret]);
        if Orderly(log) {
          ghost var i, j := RowHistory(log, secret);
        }
      }
      if Orderly(log) && Clocked(log, now) {
        StoredIff(log, secret, now);
      }
    }

    /**
     One row at most can match, because codes are unique. On an orderly history the user is told ok exactly when
     the code is that of an outstanding request nobody has approved while it was live.
     */
    method Authorize(now: int, code: nat, user: nat) returns (ok: bool)
      requires Valid()
      modifies this
      ensures Valid() && log == old(log) + [Approve(now, code, user)]
      ensures ok <==> rows != old(rows)
      ensures Approved(ok) == AnswerTo(old(rows), Approve(now, code, user))
      ensures Orderly(old(log)) && Clocked(old(log), now) ==>
                (ok <==> exists secret: string, i: nat :: Awaits(old(log), code, now, secret, i))
      ensures rows == Authorized(old(rows), code, user, now)
      ensures forall s, t :: s in rows && t in rows && rows[s] != old(rows)[s] && rows[t] != old(rows)[t] ==> s == t
    {
      if Orderly(log) && Clocked(log, now) {
        AuthorizableIff(log, code, now);
      }
      ApprovalChangesIff(rows, code, user, now);
      RunOne(log, Approve(now, code, user));
      log := log + [Approve(now, code, user)];
      ok := CanAuthorize(rows, code, now);
      rows := Authorized(rows, code, user, now);
    }

    /**
     DELETE ... RETURNING: the row goes as the user is handed over. On an orderly history a user is handed over
     exactly when the request is outstanding and that user was the first to approve its code while it was live.
     */
    method Redeem(now: int, secret: string) returns (user: Option<nat>)
      requires Valid()
      modifies this
      ensures Valid() && log == old(log) + [Claim(now, secret)]
      ensures Handed(user) == AnswerTo(old(rows), Claim(now, secret))
      ensures rows == if user.Some? then old(rows) - {secret} else old(rows)
      ensures Orderly(old(log)) && Clocked(old(log), now) ==>
                forall u: nat :: user == Some(u) <==> exists i: nat, j: nat :: HandsOver(old(log), secret, now, i, j) && old(log)[j].user == u
    {
      user := Redeemable(rows, secret, now);
      if Orderly(log) && Clocked(log, now) {
        forall u: nat
          ensures user == Some(u) <==> exists i: nat, j: nat :: HandsOver(log, secret, now, i, j) && log[j].user == u
        {
          RedeemableIff(log, secret, now, u);
        }
      }
      RunOne(log, Claim(now, secret));
      log := log + [Claim(now, secret)];
      if user.Some? {
        rows := rows - {secret};
      }
    }

    /** The foreign key of the users table: a user's authorised requests go with the user. */
    method UserRemoved(now: int, user: nat)
      requires Valid()
      modifies this
      ensures Valid() && log == old(log) + [RemoveUser(now, user)]
      ensures forall s :: s in rows <==> s in old(rows) && old(rows)[s].authorizedBy != Some(user)
      ensures forall s :: s in rows ==> rows[s] == old(rows)[s]
    {
      RunOne(log, RemoveUser(now, user));
      log := log + [RemoveUser(now, user)];
      rows := map s | s in rows && rows[s].authorizedBy != Some(user) :: rows[s];
    }
  }
}
