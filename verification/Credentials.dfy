/** The single account: setup, login, and the replay guard over crashes and restarts. */
module Credentials {
  import opened Wrappers
  import opened BitStream
  import Pbkdf2
  import T = Totp

  const MIN_PASS := 8
  const ITERATIONS := 600000

  /** The abstract primitives: one-time codes, the password hash's pseudorandom function, and the bytes of a string. */
  datatype Crypto = Crypto(totp: T.Crypto, prf: Pbkdf2.Prf, utf8: string -> seq<Byte>)

  datatype Account = Account(user: string, salt: seq<Byte>, hash: seq<Byte>, iter: int, cookieKey: seq<Byte>,
      totpSecret: string, totpLast: int)

  // --- the credential file ---

  /** What is under a file name. */
  datatype File = Absent | Unreadable | Corrupt | Whole(account: Account)

  /** The calls that replace the file, in order. */
  datatype Stage = Open | Write | Sync | Close | Rename

  datatype Disk = Disk(file: File, temp: File)

  /** One call; only the rename touches the credential file. */
  function Step(d: Disk, s: Stage, a: Account): Disk {
    match s
    case Open => d.(temp := Corrupt)
    case Write => d.(temp := Whole(a))
    case Sync => d
    case Close => d
    case Rename => Disk(d.temp, Absent)
  }

  function StageAt(n: nat): Stage {
    if n == 0 then Open else if n == 1 then Write else if n == 2 then Sync else if n == 3 then Close else Rename
  }

  /** The disk after the first n calls. */
  function AfterStages(d: Disk, a: Account, n: nat): Disk {
    if n == 0 then d else Step(AfterStages(d, a, n - 1), StageAt(n - 1), a)
  }

  /** Stopped anywhere, the file is the old one or the whole new one, and new only when all five calls are done. */
  lemma OldOrNew(d: Disk, a: Account, n: nat)
    requires n <= 5
    ensures AfterStages(d, a, n).file == if n == 5 then Whole(a) else d.file
  {
    assert AfterStages(d, a, 1) == d.(temp := Corrupt);
    assert AfterStages(d, a, 2) == d.(temp := Whole(a));
    assert AfterStages(d, a, 3) == d.(temp := Whole(a));
    assert AfterStages(d, a, 4) == d.(temp := Whole(a));
  }

  // --- what each operation decides ---

  /** Starting up: an absent file is a first run; an unusable one is refused. */
  function Load(f: File): Result<Option<Account>, File> {
    match f
    case Absent => Ok(None)
    case Whole(a) => if a.user == "" then Err(f) else Ok(Some(a))
    case _ => Err(f)
  }

  datatype Registration = Registration(user: string, pass: string, totpSecret: string, code: string, salt: seq<Byte>,
      cookieKey: seq<Byte>)

  datatype Refusal = AlreadyConfigured | NoUser | ShortPassword | CodeMismatch

  function Register(c: Crypto, a: Option<Account>, r: Registration, now: int): Result<Account, Refusal> {
    if a.Some? then Err(AlreadyConfigured)
    else if r.user == "" then Err(NoUser)
    else if |c.utf8(r.pass)| < MIN_PASS then Err(ShortPassword)
    else
      var hash := Pbkdf2.Key(c.prf, c.utf8(r.pass), r.salt, ITERATIONS, 32);
      if r.totpSecret == "" then Ok(Account(r.user, r.salt, hash, ITERATIONS, r.cookieKey, "", 0))
      else match T.Accept(c.totp, r.totpSecret, r.code, now, 0)
        case None => Err(CodeMismatch)
        case Some(step) => Ok(Account(r.user, r.salt, hash, ITERATIONS, r.cookieKey, r.totpSecret, step))
  }

  datatype Attempt = Attempt(user: string, pass: string, code: string)

  predicate PasswordMatches(c: Crypto, a: Account, t: Attempt) {
    t.user == a.user && Pbkdf2.Key(c.prf, c.utf8(t.pass), a.salt, a.iter, |a.hash|) == a.hash
  }

  /** The account after an accepted login, its code burned; None is a refusal. */
  function Admit(c: Crypto, a: Option<Account>, t: Attempt, now: int): Option<Account> {
    if a == None || !PasswordMatches(c, a.value, t) then None
    else if a.value.totpSecret == "" then a
    else match T.Accept(c.totp, a.value.totpSecret, t.code, now, a.value.totpLast)
      case None => None
      case Some(step) => Some(a.value.(totpLast := step))
  }

  /** Exactly who is admitted: the user, the stored hash and, with a second factor, a fresh step near the clock. */
  lemma AdmitExactly(c: Crypto, f: Account, t: Attempt, now: int)
    ensures Admit(c, Some(f), t, now).Some? <==>
              && t.user == f.user
              && Pbkdf2.Key(c.prf, c.utf8(t.pass), f.salt, f.iter, |f.hash|) == f.hash
              && (f.totpSecret != "" ==>
                   exists step: nat :: step > f.totpLast && T.Near(now, step)
                     && T.Code(c.totp, f.totpSecret, step) == Some(T.M.Trim(t.code)))
    ensures Admit(c, Some(f), t, now).Some? ==>
              var b := Admit(c, Some(f), t, now).value;
              if f.totpSecret == "" then b == f
              else
                && b == f.(totpLast := b.totpLast)
                && b.totpLast >= 0 && b.totpLast > f.totpLast && T.Near(now, b.totpLast)
                && T.Code(c.totp, f.totpSecret, b.totpLast) == Some(T.M.Trim(t.code))
    ensures Admit(c, None, t, now) == None
  {
    T.AcceptIsLeast(c.totp, f.totpSecret, t.code, now, f.totpLast);
    hide T.Accept; hide T.Near; hide T.Code; hide T.M.Trim; hide Pbkdf2.Key;
  }

  /** Exactly what account a registration makes, and why it is refused, in this order. */
  lemma RegisterExactly(c: Crypto, a: Option<Account>, r: Registration, now: int)
    ensures var made, confirmed := Register(c, a, r, now), r.totpSecret == "" || exists step: nat ::
              step > 0 && T.Near(now, step) && T.Code(c.totp, r.totpSecret, step) == Some(T.M.Trim(r.code));
            && (made == Err(AlreadyConfigured) <==> a.Some?)
            && (made == Err(NoUser) <==> a == None && r.user == "")
            && (made == Err(ShortPassword) <==> a == None && r.user != "" && |c.utf8(r.pass)| < 8)
            && (made == Err(CodeMismatch) <==> a == None && r.user != "" && |c.utf8(r.pass)| >= 8 && !confirmed)
    ensures Register(c, a, r, now).Ok? ==>
              var b := Register(c, a, r, now).value;
              && b.user == r.user && b.salt == r.salt && b.iter == 600000 && b.cookieKey == r.cookieKey
              && b.hash == Pbkdf2.Key(c.prf, c.utf8(r.pass), r.salt, 600000, 32)
              && b.totpSecret == r.totpSecret
              && (if r.totpSecret == "" then b.totpLast == 0
                  else b.totpLast > 0 && T.Near(now, b.totpLast)
                       && T.Code(c.totp, r.totpSecret, b.totpLast) == Some(T.M.Trim(r.code)))
  {
    T.AcceptIsLeast(c.totp, r.totpSecret, r.code, now, 0);
    hide T.Accept; hide T.Near; hide T.Code; hide T.M.Trim; hide Pbkdf2.Key;
  }

  /** Whoever sets the account up can log in: same user and password and, with two factors, the code of a fresh step. */
  lemma SetupThenLogin(c: Crypto, r: Registration, made: int, t: Attempt, now: int, step: nat)
    requires Register(c, None, r, made).Ok? && t.user == r.user && t.pass == r.pass
    requires r.totpSecret != "" ==>
      && T.Code(c.totp, r.totpSecret, step) == Some(T.M.Trim(t.code))
      && step > Register(c, None, r, made).value.totpLast && T.Near(now, step)
    ensures Admit(c, Some(Register(c, None, r, made).value), t, now).Some?
  {
    var a := Register(c, None, r, made).value;
    assert |a.hash| == 32;
    assert PasswordMatches(c, a, t);
    hide PasswordMatches; hide Register; hide T.Code; hide T.M.Trim; hide T.Near; hide T.Accept;
    if r.totpSecret != "" { T.FreshCodeAccepted(c.totp, r.totpSecret, t.code, now, a.totpLast, step); }
  }

  // --- the object ---

  class Auth {
    var a: Option<Account>
    var disk: Disk

    constructor (d: Disk)
      requires Load(d.file).Ok?
      ensures a == Load(d.file).value && disk == d
    {
      a, disk := Load(d.file).value, d;
    }

    /** A first run, the account of a whole file, or a refusal with the file that is unusable. */
    static method NewAuth(d: Disk) returns (r: Result<Auth, File>)
      ensures r.Err? <==> d.file.Unreadable? || d.file.Corrupt? || (d.file.Whole? && d.file.account.user == "")
      ensures r.Err? ==> r.error == d.file
      ensures r.Ok? ==> fresh(r.value) && r.value.disk == d
      ensures r.Ok? ==> r.value.a == if d.file == Absent then None else Some(d.file.account)
    {
      if d.file.Unreadable? || d.file.Corrupt? { return Err(d.file); }
      if d.file.Whole? && d.file.account.user == "" { return Err(d.file); }
      var au := new Auth(d);
      return Ok(au);
    }

    /** Replaces the credential file; `fail` is the call that fails, if one does. */
    method SaveLocked(fail: Option<Stage>) returns (ok: bool)
      requires a.Some?
      modifies this`disk
      ensures ok == (fail == None)
      ensures disk.file == if ok then Whole(a.value) else old(disk.file)
    {
      if fail == Some(Open) { return false; }
      disk := Step(disk, Open, a.value);
      if fail == Some(Write) { disk := disk.(temp := Absent); return false; }
      disk := Step(disk, Write, a.value);
      if fail == Some(Sync) { disk := disk.(temp := Absent); return false; }
      disk := Step(disk, Sync, a.value);
      if fail == Some(Close) { disk := disk.(temp := Absent); return false; }
      disk := Step(disk, Close, a.value);
      if fail.Some? { return false; }
      disk := Step(disk, Rename, a.value);
      return true;
    }

    /** Creates the account; nothing is kept if it cannot be saved. */
    method Setup(c: Crypto, r: Registration, now: int, fail: Option<Stage>) returns (e: Result<(), Option<Refusal>>)
      modifies this
      ensures var made := Register(c, old(a), r, now);
              match made
              case Err(refusal) => e == Err(Some(refusal)) && a == old(a) && disk == old(disk)
              case Ok(account) =>
                if fail == None then e == Ok(()) && a == Some(account) && disk.file == Whole(account)
                else e == Err(None) && a == None && disk.file == old(disk.file)
      ensures e == Ok(()) <==>
                && old(a) == None && r.user != "" && |c.utf8(r.pass)| >= 8 && fail == None
                && (r.totpSecret == "" || exists step: nat ::
                     step > 0 && T.Near(now, step) && T.Code(c.totp, r.totpSecret, step) == Some(T.M.Trim(r.code)))
    {
      RegisterExactly(c, a, r, now);
      hide T.Accept; hide T.Near; hide T.Code; hide T.M.Trim; hide Pbkdf2.Key;
      if a.Some? { return Err(Some(AlreadyConfigured)); }
      if r.user == "" { return Err(Some(NoUser)); }
      if |c.utf8(r.pass)| < MIN_PASS { return Err(Some(ShortPassword)); }
      var last := 0;
      if r.totpSecret != "" {
        var step := T.Verify(c.totp, r.totpSecret, r.code, now, 0);
        if step == None { return Err(Some(CodeMismatch)); }
        last := step.value;
      }
      var hash := Pbkdf2.Derive(c.prf, c.utf8(r.pass), r.salt, ITERATIONS, 32);
      a := Some(Account(r.user, r.salt, hash, ITERATIONS, r.cookieKey, r.totpSecret, last));
      var ok := SaveLocked(fail);
      if !ok {
        a := None;
        return Err(None);
      }
      return Ok(());
    }

    /** Checks the password and the code; the accepted step is burned in memory and, if the save succeeds, on disk. */
    method Login(c: Crypto, t: Attempt, now: int, fail: Option<Stage>) returns (ok: bool)
      modifies this
      ensures var b := Admit(c, old(a), t, now);
              && ok == b.Some?
              && a == (if ok then b else old(a))
              && disk.file == if ok && b.value.totpSecret != "" && fail == None then Whole(b.value) else old(disk.file)
      ensures ok <==>
                && old(a).Some?
                && var f := old(a).value;
                   && t.user == f.user
                   && Pbkdf2.Key(c.prf, c.utf8(t.pass), f.salt, f.iter, |f.hash|) == f.hash
                   && (f.totpSecret != "" ==>
                        exists step: nat :: step > f.totpLast && T.Near(now, step)
                          && T.Code(c.totp, f.totpSecret, step) == Some(T.M.Trim(t.code)))
    {
      hide T.Accept; hide T.Near; hide T.Code; hide T.M.Trim; hide Pbkdf2.Key;
      if a == None { return false; }
      AdmitExactly(c, a.value, t, now);
      var f := a.value;
      var got := Pbkdf2.Derive(c.prf, c.utf8(t.pass), f.salt, f.iter, |f.hash|);
      if !(t.user == f.user && got == f.hash) { return false; }
      if f.totpSecret != "" {
        var step := T.Verify(c.totp, f.totpSecret, t.code, now, f.totpLast);
        if step == None { return false; }
        a := Some(f.(totpLast := step.value));
        var _ := SaveLocked(fail);
      }
      return true;
    }
  }

  // --- runs with crashes and restarts ---

  /** How a save inside an operation ends; the process may die before or after the rename. */
  datatype Save = Saved | Failed | DiedOld | DiedNew

  datatype Action =
    | Setup(r: Registration, now: int, save: Save)
    | Login(t: Attempt, now: int, save: Save)
    | Crash
    | Restart

  datatype Proc = Up(a: Option<Account>) | Down

  datatype Sys = Sys(proc: Proc, file: File)

  /** The account an action writes to disk, if it gets that far. */
  function Saves(c: Crypto, s: Sys, x: Action): Option<Account> {
    if s.proc.Down? then None
    else match x
      case Setup(r, now, _) =>
        (match Register(c, s.proc.a, r, now) case Ok(b) => Some(b) case Err(_) => None)
      case Login(t, now, _) =>
        (match Admit(c, s.proc.a, t, now)
         case Some(b) => if b.totpSecret != "" then Some(b) else None
         case None => None)
      case _ => None
  }

  function Act(c: Crypto, s: Sys, x: Action): Sys {
    match x
    case Crash => Sys(Down, s.file)
    case Restart =>
      if s.proc.Up? then s else (match Load(s.file) case Ok(a) => Sys(Up(a), s.file) case Err(_) => s)
    case _ =>
      match Saves(c, s, x)
      case None => s
      case Some(b) =>
        match x.save
        case Saved => Sys(Up(Some(b)), Whole(b))
        case Failed => Sys(Up(if x.Login? then Some(b) else None), s.file)
        case DiedOld => Sys(Down, s.file)
        case DiedNew => Sys(Down, Whole(b))
  }

  function Run(c: Crypto, file: File, xs: seq<Action>): Sys {
    if xs == [] then Sys(Down, file) else Act(c, Run(c, file, xs[..|xs| - 1]), xs[|xs| - 1])
  }

  /** The step whose code an action accepted, reporting success. */
  function Accepts(c: Crypto, s: Sys, x: Action): Option<int> {
    match Saves(c, s, x)
    case None => None
    case Some(b) =>
      if b.totpSecret != "" && (x.save == Saved || (x.save == Failed && x.Login?)) then Some(b.totpLast) else None
  }

  /** Whether an action completes a rename. */
  predicate Renames(c: Crypto, s: Sys, x: Action) {
    Saves(c, s, x).Some? && (x.save == Saved || x.save == DiedNew)
  }

  /** What every run keeps: memory is the file's account with a last step at least as late. */
  predicate Inv(s: Sys) {
    s.proc.Up? ==>
      match s.proc.a
      case None => s.file == Absent
      case Some(a) =>
        && a.user != "" && s.file.Whole? && s.file.account.totpLast <= a.totpLast
        && s.file.account == a.(totpLast := s.file.account.totpLast)
  }

  predicate InMemory(s: Sys, step: int) { s.proc.Up? && s.proc.a.Some? && s.proc.a.value.totpLast >= step }

  predicate OnDisk(s: Sys, step: int) { s.file.Whole? && s.file.account.totpLast >= step }

  lemma AcceptAdvances(c: Crypto, s: Sys, x: Action)
    ensures Saves(c, s, x).Some? ==>
              var b := Saves(c, s, x).value;
              && s.proc.Up? && (x.Setup? ==> b.user != "") && (x.Setup? ==> s.proc.a == None)
              && (x.Login? ==> s.proc.a.Some? && b.totpLast > s.proc.a.value.totpLast)
              && (x.Login? ==> b == s.proc.a.value.(totpLast := b.totpLast))
              && (x.Setup? || x.Login?)
              && (b.totpSecret != "" ==> b.totpLast >= 0 && T.Near(x.now, b.totpLast))
  {
    hide T.Code; hide Pbkdf2.Key; hide T.M.Trim; hide T.Near; hide T.Accept;
    match x {
      case Setup(r, now, _) => if s.proc.Up? { RegisterExactly(c, s.proc.a, r, now); }
      case Login(t, now, _) => if s.proc.Up? && s.proc.a.Some? { AdmitExactly(c, s.proc.a.value, t, now); }
      case _ =>
    }
    hide Register; hide Admit;
  }

  lemma SaveCases(save: Save)
    ensures save == Saved || save == Failed || save == DiedOld || save == DiedNew
  {}

  lemma InvStep(c: Crypto, s: Sys, x: Action)
    requires Inv(s)
    ensures Inv(Act(c, s, x))
  {
    AcceptAdvances(c, s, x);
    hide Saves; hide Register; hide Admit;
    if Saves(c, s, x).Some? { SaveCases(x.save); }
  }

  lemma {:induction false} InvAlways(c: Crypto, file: File, xs: seq<Action>)
    ensures Inv(Run(c, file, xs))
  {
    hide Inv; hide Act;
    if xs == [] {
      DownIsFine(file);
    } else {
      InvAlways(c, file, xs[..|xs| - 1]);
      InvStep(c, Run(c, file, xs[..|xs| - 1]), xs[|xs| - 1]);
    }
  }

  lemma DownIsFine(file: File)
    ensures Inv(Sys(Down, file))
  {}

  /** What one action does to a burned step. */
  lemma BurnedStep(c: Crypto, s: Sys, x: Action, step: int)
    requires Inv(s)
    ensures OnDisk(s, step) ==> OnDisk(Act(c, s, x), step) && (s.proc.Up? ==> InMemory(s, step))
    ensures InMemory(s, step) ==> Act(c, s, x).proc.Down? || InMemory(Act(c, s, x), step)
    ensures InMemory(s, step) && Renames(c, s, x) ==> OnDisk(Act(c, s, x), step)
    ensures InMemory(s, step) && Accepts(c, s, x).Some? ==> Accepts(c, s, x).value > step
  {
    AcceptAdvances(c, s, x);
    hide Saves; hide Register; hide Admit;
    if Saves(c, s, x).Some? { SaveCases(x.save); }
  }

  /** An accepted step is in memory at once, and on disk if its save completed. */
  lemma AcceptBurns(c: Crypto, s: Sys, x: Action)
    requires Accepts(c, s, x).Some?
    ensures InMemory(Act(c, s, x), Accepts(c, s, x).value)
    ensures Renames(c, s, x) ==> OnDisk(Act(c, s, x), Accepts(c, s, x).value)
  {
    AcceptAdvances(c, s, x);
    hide Saves; hide Register; hide Admit;
  }

  // --- theorems over runs ---

  function AcceptedAt(c: Crypto, file: File, xs: seq<Action>, i: nat): Option<int>
    requires i < |xs|
  {
    Accepts(c, Run(c, file, xs[..i]), xs[i])
  }

  predicate RenamedAt(c: Crypto, file: File, xs: seq<Action>, i: nat)
    requires i < |xs|
  {
    Renames(c, Run(c, file, xs[..i]), xs[i])
  }

  predicate UpAfter(c: Crypto, file: File, xs: seq<Action>, n: nat)
    requires n <= |xs|
  {
    Run(c, file, xs[..n]).proc.Up?
  }

  /** Every accepted step is within one step of the clock, and not negative. */
  lemma AcceptedInWindow(c: Crypto, file: File, xs: seq<Action>, i: nat)
    requires i < |xs| && AcceptedAt(c, file, xs, i).Some?
    ensures (xs[i].Setup? || xs[i].Login?) && AcceptedAt(c, file, xs, i).value >= 0
    ensures T.Near(xs[i].now, AcceptedAt(c, file, xs, i).value)
  {
    AcceptAdvances(c, Run(c, file, xs[..i]), xs[i]);
    hide Saves; hide Run; hide T.Near;
  }

  lemma RunSnoc(c: Crypto, file: File, xs: seq<Action>, n: nat)
    requires 0 < n <= |xs|
    ensures Run(c, file, xs[..n]) == Act(c, Run(c, file, xs[..n - 1]), xs[n - 1])
  {
    hide Act;
    assert xs[..n][..n - 1] == xs[..n - 1];
  }

  /** While the process stays up the accepted step stays in memory. */
  lemma {:induction false} StaysInMemory(c: Crypto, file: File, xs: seq<Action>, i: nat, n: nat)
    requires i < n <= |xs| && AcceptedAt(c, file, xs, i).Some?
    requires forall m :: i < m <= n ==> UpAfter(c, file, xs, m)
    ensures InMemory(Run(c, file, xs[..n]), AcceptedAt(c, file, xs, i).value)
  {
    hide Act; hide Accepts; hide InMemory; hide OnDisk; hide Inv; hide Run;
    RunSnoc(c, file, xs, n);
    var s := Run(c, file, xs[..n - 1]);
    if n == i + 1 {
      AcceptBurns(c, s, xs[i]);
    } else {
      StaysInMemory(c, file, xs, i, n - 1);
      InvAlways(c, file, xs[..n - 1]);
      BurnedStep(c, s, xs[n - 1], AcceptedAt(c, file, xs, i).value);
      assert UpAfter(c, file, xs, n);
    }
  }

  /** Once the accepted step, or a later one, is renamed into place it stays on disk. */
  lemma {:induction false} StaysOnDisk(c: Crypto, file: File, xs: seq<Action>, i: nat, k: nat, n: nat)
    requires i <= k < n <= |xs| && AcceptedAt(c, file, xs, i).Some? && RenamedAt(c, file, xs, k)
    requires forall m :: i < m <= k ==> UpAfter(c, file, xs, m)
    ensures OnDisk(Run(c, file, xs[..n]), AcceptedAt(c, file, xs, i).value)
  {
    hide Act; hide Accepts; hide InMemory; hide OnDisk; hide Inv; hide Run; hide Renames; hide UpAfter;
    RunSnoc(c, file, xs, n);
    InvAlways(c, file, xs[..n - 1]);
    var s, step := Run(c, file, xs[..n - 1]), AcceptedAt(c, file, xs, i).value;
    if n > k + 1 {
      StaysOnDisk(c, file, xs, i, k, n - 1);
      BurnedStep(c, s, xs[n - 1], step);
    } else if k == i {
      AcceptBurns(c, s, xs[i]);
    } else {
      StaysInMemory(c, file, xs, i, k);
      BurnedStep(c, s, xs[k], step);
    }
  }

  /** The step accepted at i is still guarded at j: no crash in between, or some rename after it completed before the
   first crash. */
  ghost predicate Guarded(c: Crypto, file: File, xs: seq<Action>, i: nat, j: nat)
    requires i < j <= |xs|
  {
    exists k :: i <= k <= j && (k == j || RenamedAt(c, file, xs, k))
        && forall m :: i < m <= k ==> UpAfter(c, file, xs, m)
  }

  /** No replay: a later accepted step exceeds every earlier one that is still guarded, whatever the clock does. */
  lemma NoReplay(c: Crypto, file: File, xs: seq<Action>, i: nat, j: nat)
    requires i < j < |xs| && AcceptedAt(c, file, xs, i).Some? && AcceptedAt(c, file, xs, j).Some?
    requires Guarded(c, file, xs, i, j)
    ensures AcceptedAt(c, file, xs, i).value < AcceptedAt(c, file, xs, j).value
  {
    hide Act; hide InMemory; hide OnDisk; hide Inv; hide Run; hide Renames; hide UpAfter;
    var k :| i <= k <= j && (k == j || RenamedAt(c, file, xs, k)) && forall m :: i < m <= k ==> UpAfter(c, file, xs, m);
    var s, step := Run(c, file, xs[..j]), AcceptedAt(c, file, xs, i).value;
    InvAlways(c, file, xs[..j]);
    if k == j {
      StaysInMemory(c, file, xs, i, j);
    } else {
      StaysOnDisk(c, file, xs, i, k, j);
      AcceptNeedsUp(c, s, xs[j]);
    }
    BurnedStep(c, s, xs[j], step);
  }

  lemma AcceptNeedsUp(c: Crypto, s: Sys, x: Action)
    ensures Accepts(c, s, x).Some? ==> s.proc.Up?
  {}

  /** While saves succeed accepted steps strictly increase, across any crashes and restarts. */
  lemma SavedStepsIncrease(c: Crypto, file: File, xs: seq<Action>, i: nat, j: nat)
    requires i < j < |xs| && AcceptedAt(c, file, xs, i).Some? && AcceptedAt(c, file, xs, j).Some? && xs[i].save == Saved
    ensures AcceptedAt(c, file, xs, i).value < AcceptedAt(c, file, xs, j).value
  {
    hide Saves; hide Run;
    assert RenamedAt(c, file, xs, i);
    NoReplay(c, file, xs, i, j);
  }

  /** The account of the last completed rename, or what the file held at the start. */
  function LastRenamed(c: Crypto, file: File, xs: seq<Action>): File {
    if xs == [] then file
    else
      var s, x := Run(c, file, xs[..|xs| - 1]), xs[|xs| - 1];
      if Renames(c, s, x) then Whole(Saves(c, s, x).value) else LastRenamed(c, file, xs[..|xs| - 1])
  }

  /** A restart takes up exactly the account of the last completed rename. */
  lemma {:induction false} RestartTakesLastRename(c: Crypto, file: File, xs: seq<Action>)
    ensures Run(c, file, xs).file == LastRenamed(c, file, xs)
    ensures var s := Run(c, file, xs);
            s.proc.Down? && Act(c, s, Restart).proc.Up? ==>
              Ok(Act(c, s, Restart).proc.a) == Load(LastRenamed(c, file, xs))
  {
    if xs != [] {
      var s, x := Run(c, file, xs[..|xs| - 1]), xs[|xs| - 1];
      RestartTakesLastRename(c, file, xs[..|xs| - 1]);
      AcceptAdvances(c, s, x);
      if Saves(c, s, x).Some? { SaveCases(x.save); }
    }
    hide Saves; hide Load;
  }

  lemma {:induction false} FileStays(c: Crypto, file: File, xs: seq<Action>, i: nat, m: nat)
    requires i <= m <= |xs| && forall k :: i <= k < m ==> !RenamedAt(c, file, xs, k)
    ensures Run(c, file, xs[..m]).file == Run(c, file, xs[..i]).file
  {
    hide Act; hide Renames; hide Run;
    if i < m {
      FileStays(c, file, xs, i, m - 1);
      RunSnoc(c, file, xs, m);
      assert !RenamedAt(c, file, xs, m - 1);
      NoRename(c, Run(c, file, xs[..m - 1]), xs[m - 1]);
    }
  }

  lemma NoRename(c: Crypto, s: Sys, x: Action)
    requires !Renames(c, s, x)
    ensures Act(c, s, x).file == s.file
  {
    AcceptAdvances(c, s, x);
    if Saves(c, s, x).Some? { SaveCases(x.save); }
    hide Saves;
  }

  /** Nothing on disk is as late as a step just being accepted. */
  lemma NotYetOnDisk(c: Crypto, s: Sys, x: Action)
    requires Inv(s) && Accepts(c, s, x).Some? && !Renames(c, s, x)
    ensures !OnDisk(s, Accepts(c, s, x).value)
  {
    AcceptAdvances(c, s, x);
    hide Saves;
  }

  /** What a crash leaves on disk guards the step accepted before it exactly when some rename since then completed. */
  lemma CrashKeepsExactlyRenamed(c: Crypto, file: File, xs: seq<Action>, i: nat, m: nat)
    requires i < m <= |xs| && AcceptedAt(c, file, xs, i).Some?
    requires forall n :: i < n < m ==> UpAfter(c, file, xs, n)
    ensures OnDisk(Run(c, file, xs[..m]), AcceptedAt(c, file, xs, i).value)
        <==> exists k :: i <= k < m && RenamedAt(c, file, xs, k)
  {
    hide Act; hide Accepts; hide OnDisk; hide Inv; hide Run; hide Renames; hide UpAfter;
    if k :| i <= k < m && RenamedAt(c, file, xs, k) {
      StaysOnDisk(c, file, xs, i, k, m);
    } else {
      assert !RenamedAt(c, file, xs, i);
      InvAlways(c, file, xs[..i]);
      NotYetOnDisk(c, Run(c, file, xs[..i]), xs[i]);
      FileStays(c, file, xs, i, m);
      SameFile(Run(c, file, xs[..i]), Run(c, file, xs[..m]), AcceptedAt(c, file, xs, i).value);
    }
  }

  lemma SameFile(s: Sys, t: Sys, step: int)
    requires s.file == t.file
    ensures OnDisk(s, step) == OnDisk(t, step)
  {}

  // --- exactly which steps come back ---

  /** The file's account admits the same attempt again, with a step no later than the burned one. */
  lemma AdmittedAgain(c: Crypto, a: Account, last: int, t: Attempt, now: int)
    requires last <= a.totpLast && a.totpSecret != "" && Admit(c, Some(a), t, now).Some?
    ensures var b := Admit(c, Some(a.(totpLast := last)), t, now);
            b.Some? && b.value.totpSecret != "" && b.value.totpLast <= Admit(c, Some(a), t, now).value.totpLast
  {
    hide T.Code; hide T.M.Trim; hide T.StepOf; hide Pbkdf2.Key;
  }

  /** After the crash: a restart and the same login, given the file still has an earlier step. */
  lemma SameLoginAgain(c: Crypto, s: Sys, d: Sys, t: Attempt, now: int, save: Save, again: Save)
    requires Inv(s) && Accepts(c, s, Login(t, now, save)).Some?
    requires d == Sys(Down, s.file) && (again == Saved || again == Failed)
    ensures var u := Act(c, d, Restart);
            && Accepts(c, u, Login(t, now, again)).Some?
            && Accepts(c, u, Login(t, now, again)).value <= Accepts(c, s, Login(t, now, save)).value
  {
    AcceptAdvances(c, s, Login(t, now, save));
    hide Admit;
    var a := s.proc.a.value;
    AdmitKeeps(c, a, t, now);
    AdmittedAgain(c, a, s.file.account.totpLast, t, now);
  }

  lemma AdmitKeeps(c: Crypto, a: Account, t: Attempt, now: int)
    ensures Admit(c, Some(a), t, now).Some? ==> Admit(c, Some(a), t, now).value.totpSecret == a.totpSecret
  {}

  /** A run, then a restart and the login of its action i once more. */
  function Retried(xs: seq<Action>, i: nat, again: Save): seq<Action>
    requires i < |xs| && xs[i].Login?
  {
    xs + [Restart, Login(xs[i].t, xs[i].now, again)]
  }

  lemma RetriedState(c: Crypto, file: File, xs: seq<Action>, i: nat, again: Save)
    requires i < |xs| && xs[i].Login?
    ensures var ys, m := Retried(xs, i, again), |xs|;
            && Run(c, file, ys[..m]) == Run(c, file, xs)
            && Run(c, file, ys[..m + 1]) == Act(c, Run(c, file, xs), Restart)
  {
    hide Act;
    var ys, m := Retried(xs, i, again), |xs|;
    assert ys[..m] == xs && ys[..m + 1][..m] == xs;
  }

  /** A login whose step no rename has recorded since is accepted again after a crash and a restart, with a step no
   later. */
  lemma UnsavedStepComesBack(c: Crypto, file: File, xs: seq<Action>, i: nat, again: Save)
    requires i < |xs| && xs[i].Login? && AcceptedAt(c, file, xs, i).Some?
    requires forall k :: i <= k < |xs| ==> !RenamedAt(c, file, xs, k)
    requires Run(c, file, xs).proc.Down? && (again == Saved || again == Failed)
    ensures var y := AcceptedAt(c, file, Retried(xs, i, again), |xs| + 1);
            y.Some? && y.value <= AcceptedAt(c, file, xs, i).value
  {
    hide Act; hide Accepts; hide Run; hide Inv; hide Renames;
    var m := |xs|;
    assert xs[..m] == xs;
    FileStays(c, file, xs, i, m);
    InvAlways(c, file, xs[..i]);
    RetriedState(c, file, xs, i, again);
    SameLoginAgain(c, Run(c, file, xs[..i]), Run(c, file, xs), xs[i].t, xs[i].now, xs[i].save, again);
  }

  /** Exactly the steps without a completed rename before the crash can be replayed. */
  lemma ReplayExactlyUnsaved(c: Crypto, file: File, xs: seq<Action>, i: nat, again: Save)
    requires i < |xs| && xs[i].Login? && AcceptedAt(c, file, xs, i).Some?
    requires (forall n :: i < n < |xs| ==> UpAfter(c, file, xs, n)) && Run(c, file, xs).proc.Down?
    requires again == Saved || again == Failed
    ensures var y := AcceptedAt(c, file, Retried(xs, i, again), |xs| + 1);
            (y.Some? && y.value <= AcceptedAt(c, file, xs, i).value)
                <==> forall k :: i <= k < |xs| ==> !RenamedAt(c, file, xs, k)
  {
    hide Act; hide Accepts; hide Run; hide Inv; hide Renames; hide UpAfter; hide OnDisk; hide InMemory;
    var m, ys := |xs|, Retried(xs, i, again);
    if k :| i <= k < m && RenamedAt(c, file, xs, k) {
      assert xs[..m] == xs;
      StaysOnDisk(c, file, xs, i, k, m);
      RetriedState(c, file, xs, i, again);
      GuardedAfterRestart(c, file, xs, Run(c, file, xs), ys[m + 1], AcceptedAt(c, file, xs, i).value);
    } else {
      UnsavedStepComesBack(c, file, xs, i, again);
    }
  }

  lemma GuardedAfterRestart(c: Crypto, file: File, xs: seq<Action>, s: Sys, x: Action, step: int)
    requires s == Run(c, file, xs) && OnDisk(s, step)
    ensures var u := Act(c, s, Restart); Accepts(c, u, x).Some? ==> Accepts(c, u, x).value > step
  {
    InvAlways(c, file, xs);
    hide Run; hide Accepts;
    InvStep(c, s, Restart);
    BurnedStep(c, s, Restart, step);
    AcceptNeedsUp(c, Act(c, s, Restart), x);
    hide Act; hide OnDisk; hide InMemory; hide Inv;
    BurnedStep(c, Act(c, s, Restart), x, step);
  }
}
