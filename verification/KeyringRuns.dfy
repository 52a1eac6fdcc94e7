/** Runs of a vault driven by one unlocked keyring. */
module KeyringRuns {
  import opened Wrappers
  import opened Stores
  import opened Keyring
  import opened KeyringSession
  import opened Delegation

  datatype Command =
    | PutText(k: Key, v: nat, text: string, encrypted: bool)
    | GrantTo(user: string, newRole: Role, explicit: Permissions, passphrase: string)
    | RevokeUser(target: string, strict: bool, rotate: bool)
    | Rotate(collections: set<string>)
    | NewSecret(passphrase: string)

  datatype Content = Content(v: nat, text: string)

  /** The version and text of each record, under whatever key. */
  function Contents(records: RecordMap): map<Key, Content> {
    map k | k in records :: Content(records[k].v, records[k].payload.text)
  }

  /** What a command does to the contents: only a put changes them. */
  function After(m: map<Key, Content>, cmd: Command): map<Key, Content> {
    if cmd.PutText? then m[cmd.k := Content(cmd.v, cmd.text)] else m
  }

  function AfterAll(m: map<Key, Content>, cmds: seq<Command>): map<Key, Content>
    decreases |cmds|
  {
    if cmds == [] then m else AfterAll(After(m, cmds[0]), cmds[1..])
  }

  // ----- Keys once known -----------------------------------------------------------------------------

  /** Whoever knows these keys cannot read what is encrypted in the collection now. */
  ghost predicate LockedOut(known: set<Dek>, deks: Deks, nextDek: nat, c: string) {
    && (forall d :: d in known ==> d < nextDek)
    && (c in deks ==> deks[c] !in known)
  }

  /** Keys are kept, or replaced by ones generated later. */
  ghost predicate KeysMoveOn(before: Deks, nextBefore: nat, after: Deks, nextAfter: nat) {
    && nextBefore <= nextAfter
    && before.Keys <= after.Keys
    && (forall c :: c in after ==> (c in before && after[c] == before[c]) || nextBefore <= after[c])
  }

  lemma StillLockedOut(known: set<Dek>, before: Deks, nextBefore: nat, after: Deks, nextAfter: nat, c: string)
    requires LockedOut(known, before, nextBefore, c) && KeysMoveOn(before, nextBefore, after, nextAfter)
    ensures LockedOut(known, after, nextAfter, c)
  {
  }

  lemma MovingOnComposes(d0: Deks, n0: nat, d1: Deks, n1: nat, d2: Deks, n2: nat)
    requires KeysMoveOn(d0, n0, d1, n1) && KeysMoveOn(d1, n1, d2, n2)
    ensures KeysMoveOn(d0, n0, d2, n2)
  {
  }

  /** Every key in the files of these users. */
  ghost function KeysOf(files: Files, users: set<string>): set<Dek> {
    set u, c | u in users && u in files && c in files[u].deks :: files[u].deks[c].dek
  }

  /** A rotation of the collections they had keys for locks the users out of them. */
  lemma RotationLocksOut(deks: Deks, files: Files, records: RecordMap, nextDek: nat, users: set<string>, newDeks: Deks, nextDek': nat)
    requires Coherent(deks, files, records, nextDek) && nextDek <= nextDek'
    requires forall c :: c in newDeks ==> nextDek <= newDeks[c]
    ensures forall c :: c in newDeks ==> LockedOut(KeysOf(files, users), deks + newDeks, nextDek', c)
  {
    forall d | d in KeysOf(files, users)
      ensures d < nextDek
    {
      var u, c :| u in users && u in files && c in files[u].deks && files[u].deks[c].dek == d;
      assert c in deks && files[u].deks[c].dek == deks[c];
    }
  }

  lemma RotationKeepsContents(deks: Deks, newDeks: Deks, records: RecordMap)
    ensures Contents(RotatedRecords(deks, newDeks, records)) == Contents(records)
  {
  }

  /** Loading the session's own file with its passphrase gives back the session's keys, and they read
      everything the records contain. */
  lemma UnlockedReadsAll(f: File, passphrase: string, deks: Deks, files: Files, records: RecordMap, nextDek: nat)
    requires Coherent(deks, files, records, nextDek) && f.deks == WrapAll(deks, Kek(passphrase, f.salt))
    ensures Unlock(f, passphrase) == Some(deks)
    ensures forall k :: k in records ==> Open(Unlock(f, passphrase).value, k, records[k]) == Some(Contents(records)[k].text)
  {
    assert Unlock(f, passphrase).value == deks;
    CallerReadsAll(deks, files, records, nextDek);
  }

  /** What the keyring reads is what the records contain. */
  lemma CallerReadsAll(deks: Deks, files: Files, records: RecordMap, nextDek: nat)
    requires Coherent(deks, files, records, nextDek)
    ensures forall k :: k in records ==> Open(deks, k, records[k]) == Some(Contents(records)[k].text)
  {
    forall k | k in records
      ensures Open(deks, k, records[k]) == Some(records[k].payload.text)
    {
      assert Open(deks, k, records[k]).Some?;
    }
  }

  lemma LockedOutReadsNothing(known: set<Dek>, deks: Deks, files: Files, records: RecordMap, nextDek: nat, k: Key)
    requires Coherent(deks, files, records, nextDek) && LockedOut(known, deks, nextDek, k.coll)
    requires k in records && records[k].payload.Sealed?
    ensures records[k].payload.dek !in known
  {
    assert Open(deks, k, records[k]).Some?;
  }

  lemma OneKeyChanged<V>(m: map<Key, V>, m': map<Key, V>, k: Key)
    requires k in m' && forall x :: x != k ==> Lookup(m', x) == Lookup(m, x)
    ensures m' == m[k := m'[k]]
  {
    var goal := m[k := m'[k]];
    assert forall x :: Lookup(m', x) == Lookup(goal, x);
    assert forall x :: x in m' <==> Lookup(m', x).Some?;
    assert forall x :: x in goal <==> Lookup(goal, x).Some?;
    assert m'.Keys == goal.Keys;
    assert forall x :: x in m' ==> Lookup(m', x).value == m'[x] && Lookup(goal, x).value == goal[x];
  }

  // ----- What a session may do to others' files ---------------------------------------------------------

  /** The users, other than the session's own, whose files are owner files. */
  ghost function OtherOwners(files: Files, self: string): set<string> {
    set u | u in files && u != self && files[u].role.Owner?
  }

  /** An admin's grant overwrites whatever file the user has. */
  function Demoted(role: Role, cmds: seq<Command>): set<string> {
    set cmd | cmd in cmds && role.Admin? && cmd.GrantTo? && !cmd.newRole.Owner? :: cmd.user
  }

  ghost predicate NoNewOwners(before: Files, after: Files) {
    forall u :: u in after && after[u].role.Owner? ==> u in before && before[u].role.Owner?
  }

  /** The collections that are rotated on their own, not with a revocation. */
  function RotatedIn(cmds: seq<Command>): set<string> {
    set cmd, c | cmd in cmds && cmd.Rotate? && c in cmd.collections :: c
  }

  /** Others' files are there as before, at most without the entries of some rotated collections. */
  ghost predicate OthersKept(before: Files, after: Files, self: string, rotated: set<string>) {
    forall u :: u != self ==>
      && (u in after <==> u in before)
      && (u in before ==> exists gone: set<string> :: gone <= rotated && after[u] == Stripped(before[u], gone))
  }

  lemma NothingStripped(f: File)
    ensures Stripped(f, {}) == f
  {
  }

  lemma OthersUntouched(before: Files, after: Files, self: string, rotated: set<string>)
    requires forall u :: u != self ==> Lookup(after, u) == Lookup(before, u)
    ensures OthersKept(before, after, self, rotated)
  {
    forall u | u != self
      ensures u in after <==> u in before
      ensures u in before ==> exists gone: set<string> :: gone <= rotated && after[u] == Stripped(before[u], gone)
    {
      assert Lookup(after, u) == Lookup(before, u);
      if u in before {
        NothingStripped(before[u]);
        var none: set<string> := {};
        assert none <= rotated && after[u] == Stripped(before[u], none);
      }
    }
  }

  lemma KeptComposes(a: Files, b: Files, c: Files, self: string, x: set<string>, y: set<string>)
    requires OthersKept(a, b, self, x) && OthersKept(b, c, self, y)
    ensures OthersKept(a, c, self, x + y)
  {
    forall u | u != self && u in a
      ensures exists gone: set<string> :: gone <= x + y && c[u] == Stripped(a[u], gone)
    {
      var g: set<string> :| g <= x && b[u] == Stripped(a[u], g);
      var h: set<string> :| h <= y && c[u] == Stripped(b[u], h);
      assert a[u].deks - g - h == a[u].deks - (g + h) && a[u].permissions - g - h == a[u].permissions - (g + h);
      assert g + h <= x + y && c[u] == Stripped(a[u], g + h);
    }
  }

  /** What one command of a session that is not an owner's does to files. */
  ghost predicate WithinRole(role: Role, self: string, cmd: Command, before: Files, after: Files) {
    && NoNewOwners(before, after)
    && OtherOwners(after, self) == OtherOwners(before, self) - Demoted(role, [cmd])
    && (!role.Admin? ==> OthersKept(before, after, self, RotatedIn([cmd])))
  }

  lemma OwnFileOnly(role: Role, self: string, cmd: Command, before: Files, after: Files)
    requires !role.Owner? && !(cmd.GrantTo? && role.Admin?)
    requires after == before || (self in after && after == before[self := after[self]] && after[self].role == role)
    ensures WithinRole(role, self, cmd, before, after)
  {
    OthersUntouched(before, after, self, RotatedIn([cmd]));
  }

  lemma GrantWithinRole(role: Role, self: string, cmd: Command, before: Files, f: File)
    requires role.Admin? && cmd.GrantTo? && f.role == cmd.newRole && !f.role.Owner?
    ensures WithinRole(role, self, cmd, before, before[cmd.user := f])
  {
    assert Demoted(role, [cmd]) == {cmd.user} by { assert cmd in [cmd]; }
  }

  lemma RotationWithinRole(role: Role, self: string, collections: set<string>, before: Files, own: File)
    requires !role.Owner? && own.role == role
    ensures WithinRole(role, self, Rotate(collections), before, RotatedFiles(before, collections, self, own))
  {
    var after, cmd := RotatedFiles(before, collections, self, own), Rotate(collections);
    assert cmd in [cmd];
    assert collections <= RotatedIn([cmd]);
    forall u | u != self && u in before
      ensures exists gone: set<string> :: gone <= RotatedIn([cmd]) && after[u] == Stripped(before[u], gone)
    {
      assert after[u] == Stripped(before[u], collections);
    }
  }

  /** Users that are removed are no owners. */
  lemma RevocationWithinRole(role: Role, self: string, cmd: Command, before: Files, users: set<string>, after: Files)
    requires !role.Owner? && role.Admin? && cmd.RevokeUser?
    requires forall u :: u in users ==> u !in before || !before[u].role.Owner?
    requires after == before - users ||
      exists collections, own: File :: own.role == role && after == RotatedFiles(before - users, collections, self, own)
    ensures WithinRole(role, self, cmd, before, after)
  {
    assert Demoted(role, [cmd]) == {};
  }

  /** Nobody whose file is an owner's descends from anyone. */
  lemma RevokeSetHoldsNoOwner(files: Files, target: string, strict: bool, users: set<string>)
    requires RevokeSet(files, target, strict, users) && target in files && !files[target].role.Owner?
    ensures forall u :: u in users ==> u !in files || !files[u].role.Owner?
  {
    forall u | u in users && u != target
      ensures u in files && files[u].role.Admin?
    {
      var p :| GrantChain(files, target, p) && p[|p| - 1] == u;
      assert |p| == 1 || Granted(files, target, p[|p| - 2], p[|p| - 1]);
    }
  }

  // ----- Runs --------------------------------------------------------------------------------------------

  method Obey(s: Session, cmd: Command)
    requires s.Fresh()
    modifies s
    ensures s.Fresh() && (old(s.Valid()) ==> s.Valid())
    ensures old(s.Valid()) ==> Contents(s.records) == After(old(Contents(s.records)), cmd)
    ensures old(s.Valid()) ==> KeysMoveOn(old(s.deks), old(s.nextDek), s.deks, s.nextDek)
    ensures !s.role.Owner? ==> WithinRole(s.role, s.userId, cmd, old(s.files), s.files)
  {
    match cmd {
      case PutText(k, v, text, encrypted) => Put(s, k, v, text, encrypted);
      case GrantTo(user, newRole, explicit, passphrase) => GrantFile(s, user, newRole, explicit, passphrase);
      case RevokeUser(target, strict, rotate) => Revoke(s, target, strict, rotate);
      case Rotate(collections) => RotateAll(s, collections);
      case NewSecret(passphrase) => NewPassphrase(s, passphrase);
    }
  }

  method Put(s: Session, k: Key, v: nat, text: string, encrypted: bool)
    requires s.Fresh()
    modifies s
    ensures s.Fresh() && (old(s.Valid()) ==> s.Valid())
    ensures Contents(s.records) == old(Contents(s.records))[k := Content(v, text)]
    ensures KeysMoveOn(old(s.deks), old(s.nextDek), s.deks, s.nextDek)
    ensures !s.role.Owner? ==> WithinRole(s.role, s.userId, PutText(k, v, text, encrypted), old(s.files), s.files)
  {
    ghost var before, files := s.records, s.files;
    s.PutRecord(k, v, text, encrypted);
    forall x | x != k
      ensures Lookup(Contents(s.records), x) == Lookup(Contents(before), x)
    {
      assert Lookup(s.records, x) == Lookup(before, x);
    }
    OneKeyChanged(Contents(before), Contents(s.records), k);
    if !s.role.Owner? { OwnFileOnly(s.role, s.userId, PutText(k, v, text, encrypted), files, s.files); }
  }

  method GrantFile(s: Session, user: string, newRole: Role, explicit: Permissions, passphrase: string)
    requires s.Fresh()
    modifies s
    ensures s.Fresh() && (old(s.Valid()) ==> s.Valid())
    ensures s.records == old(s.records) && s.deks == old(s.deks) && s.nextDek == old(s.nextDek)
    ensures !s.role.Owner? ==> WithinRole(s.role, s.userId, GrantTo(user, newRole, explicit, passphrase), old(s.files), s.files)
  {
    ghost var files, cmd := s.files, GrantTo(user, newRole, explicit, passphrase);
    var ok := s.Grant(user, newRole, explicit, passphrase);
    if !s.role.Owner? {
      if ok {
        GrantWithinRole(s.role, s.userId, cmd, files, s.files[user]);
      } else {
        RefusedGrant(s.role, s.userId, cmd, files);
      }
    }
  }

  lemma RefusedGrant(role: Role, self: string, cmd: Command, files: Files)
    requires cmd.GrantTo? && !role.Owner? && !(role.Admin? && !cmd.newRole.Owner?)
    ensures WithinRole(role, self, cmd, files, files)
  {
    assert Demoted(role, [cmd]) == {};
    OthersUntouched(files, files, self, RotatedIn([cmd]));
  }

  method NewPassphrase(s: Session, passphrase: string)
    requires s.Fresh()
    modifies s
    ensures s.Fresh() && (old(s.Valid()) ==> s.Valid())
    ensures s.records == old(s.records) && s.deks == old(s.deks) && s.nextDek == old(s.nextDek)
    ensures !s.role.Owner? ==> WithinRole(s.role, s.userId, NewSecret(passphrase), old(s.files), s.files)
  {
    ghost var files := s.files;
    s.ChangeSecret(passphrase);
    if !s.role.Owner? { OwnFileOnly(s.role, s.userId, NewSecret(passphrase), files, s.files); }
  }

  method Revoke(s: Session, target: string, strict: bool, rotate: bool)
    requires s.Fresh()
    modifies s
    ensures s.Fresh() && (old(s.Valid()) ==> s.Valid())
    ensures Contents(s.records) == old(Contents(s.records))
    ensures KeysMoveOn(old(s.deks), old(s.nextDek), s.deks, s.nextDek)
    ensures !s.role.Owner? ==> WithinRole(s.role, s.userId, RevokeUser(target, strict, rotate), old(s.files), s.files)
  {
    ghost var deks, files, records, cmd := s.deks, s.files, s.records, RevokeUser(target, strict, rotate);
    var o := s.Revoke(target, strict, rotate);
    if o.Revoked? && rotate && CollectionsOf(files, o.users) != {} {
      ghost var newDeks: Deks :| (forall c :: c in newDeks ==> old(s.nextDek) <= newDeks[c]) && s.deks == deks + newDeks
        && s.records == RotatedRecords(deks, newDeks, records);
      RotationKeepsContents(deks, newDeks, records);
    }
    if o.RotationFailed? { SameContentsSame(records, s.records); }
    if !s.role.Owner? {
      if o.Revoked? || o.RotationFailed? {
        RevokeSetHoldsNoOwner(files, target, strict, o.users);
        RevocationWithinRole(s.role, s.userId, cmd, files, o.users, s.files);
      } else {
        OwnFileOnly(s.role, s.userId, cmd, files, s.files);
      }
    }
  }

  lemma SameContentsSame(a: RecordMap, b: RecordMap)
    requires SameContents(b, a)
    ensures Contents(b) == Contents(a)
  {
  }

  method RotateAll(s: Session, collections: set<string>)
    requires s.Fresh()
    modifies s
    ensures s.Fresh() && (old(s.Valid()) ==> s.Valid())
    ensures Contents(s.records) == old(Contents(s.records))
    ensures KeysMoveOn(old(s.deks), old(s.nextDek), s.deks, s.nextDek)
    ensures !s.role.Owner? ==> WithinRole(s.role, s.userId, Rotate(collections), old(s.files), s.files)
  {
    ghost var deks, files, records, nextDek := s.deks, s.files, s.records, s.nextDek;
    var ok, newDeks := s.RotateKeys(collections);
    if old(s.Valid()) { RotationKeepsCoherent(deks, newDeks, files, s.files, records, nextDek, s.nextDek); }
    if ok {
      RotationKeepsContents(deks, newDeks, records);
      if !s.role.Owner? { RotationWithinRole(s.role, s.userId, collections, files, s.OwnFile()); }
    } else {
      SameContentsSame(records, s.records);
      if !s.role.Owner? { OwnFileOnly(s.role, s.userId, Rotate(collections), files, s.files); }
    }
  }

  /** Over any run of a session that is not an owner's: no file becomes an owner file; the other owners
      keep theirs, exactly unless the session is an admin's and grants their user id another role, which
      overwrites the file; and a session that is no admin's either leaves all files but its own as they
      were, but for the entries of collections that it rotates. */
  method RunAs(s: Session, cmds: seq<Command>)
    requires s.Fresh() && !s.role.Owner?
    modifies s
    ensures s.Fresh()
    ensures NoNewOwners(old(s.files), s.files)
    ensures forall u :: u != s.userId && u in old(s.files) && old(s.files)[u].role.Owner? ==>
              ((u in s.files && s.files[u].role.Owner?) <==> u !in Demoted(s.role, cmds))
    ensures !s.role.Admin? ==> OthersKept(old(s.files), s.files, s.userId, RotatedIn(cmds))
    ensures !s.role.Admin? && RotatedIn(cmds) == {} ==> forall u :: u != s.userId ==> Lookup(s.files, u) == Lookup(old(s.files), u)
  {
    ghost var before := s.files;
    OthersUntouched(before, before, s.userId, {});
    var i := 0;
    while i < |cmds|
      invariant 0 <= i <= |cmds| && s.Fresh()
      invariant NoNewOwners(before, s.files)
      invariant OtherOwners(s.files, s.userId) == OtherOwners(before, s.userId) - Demoted(s.role, cmds[..i])
      invariant !s.role.Admin? ==> OthersKept(before, s.files, s.userId, RotatedIn(cmds[..i]))
    {
      ghost var middle := s.files;
      Obey(s, cmds[i]);
      OneMoreCommand(s.role, cmds, i);
      if !s.role.Admin? { KeptComposes(before, middle, s.files, s.userId, RotatedIn(cmds[..i]), RotatedIn([cmds[i]])); }
      i := i + 1;
    }
    assert cmds[..i] == cmds;
    OwnersAre(before, s.files, s.userId, Demoted(s.role, cmds));
    if !s.role.Admin? && RotatedIn(cmds) == {} { KeptIsSame(before, s.files, s.userId); }
  }

  lemma OneMoreCommand(role: Role, cmds: seq<Command>, i: nat)
    requires i < |cmds|
    ensures Demoted(role, cmds[..i + 1]) == Demoted(role, cmds[..i]) + Demoted(role, [cmds[i]])
    ensures RotatedIn(cmds[..i + 1]) == RotatedIn(cmds[..i]) + RotatedIn([cmds[i]])
  {
    assert cmds[..i + 1] == cmds[..i] + [cmds[i]];
  }

  lemma OwnersAre(before: Files, after: Files, self: string, demoted: set<string>)
    requires OtherOwners(after, self) == OtherOwners(before, self) - demoted
    ensures forall u :: u != self && u in before && before[u].role.Owner? ==>
              ((u in after && after[u].role.Owner?) <==> u !in demoted)
  {
    forall u | u != self && u in before && before[u].role.Owner?
      ensures (u in after && after[u].role.Owner?) <==> u !in demoted
    {
      assert u in OtherOwners(before, self);
      assert u in OtherOwners(after, self) <==> u in after && after[u].role.Owner?;
    }
  }

  lemma KeptIsSame(before: Files, after: Files, self: string)
    requires OthersKept(before, after, self, {})
    ensures forall u :: u != self ==> Lookup(after, u) == Lookup(before, u)
  {
    forall u | u != self
      ensures Lookup(after, u) == Lookup(before, u)
    {
      if u in before {
        var gone: set<string> :| gone <= {} && after[u] == Stripped(before[u], gone);
        assert gone == {};
        NothingStripped(before[u]);
      }
    }
  }

  /** Over any run of puts, grants, revocations, rotations and changes of secret: each record keeps the
      version and text last put, the keyring reads them all, and whoever was locked out of a
      collection by the start of the run, knowing any keys, reads nothing that is encrypted in it at the
      end. */
  method Drive(s: Session, cmds: seq<Command>)
    requires s.Valid()
    modifies s
    ensures s.Valid() && Contents(s.records) == AfterAll(old(Contents(s.records)), cmds)
    ensures forall k :: k in s.records ==> Open(s.deks, k, s.records[k]) == Some(Contents(s.records)[k].text)
    ensures forall known, k: Key :: LockedOut(known, old(s.deks), old(s.nextDek), k.coll) && k in s.records && s.records[k].payload.Sealed? ==>
              s.records[k].payload.dek !in known
  {
    ghost var deks, nextDek, goal := s.deks, s.nextDek, AfterAll(Contents(s.records), cmds);
    var i := 0;
    assert cmds[0..] == cmds;
    while i < |cmds|
      invariant 0 <= i <= |cmds| && s.Valid()
      invariant AfterAll(Contents(s.records), cmds[i..]) == goal
      invariant KeysMoveOn(deks, nextDek, s.deks, s.nextDek)
    {
      ghost var deks1, next1 := s.deks, s.nextDek;
      assert cmds[i..][0] == cmds[i] && cmds[i..][1..] == cmds[i + 1..];
      Obey(s, cmds[i]);
      MovingOnComposes(deks, nextDek, deks1, next1, s.deks, s.nextDek);
      i := i + 1;
    }
    CallerReadsAll(s.deks, s.files, s.records, s.nextDek);
    forall known, k: Key | LockedOut(known, deks, nextDek, k.coll) && k in s.records && s.records[k].payload.Sealed?
      ensures s.records[k].payload.dek !in known
    {
      StillLockedOut(known, deks, nextDek, s.deks, s.nextDek, k.coll);
      LockedOutReadsNothing(known, s.deks, s.files, s.records, s.nextDek, k);
    }
  }

  /** Revocation with rotation is for good: whatever the session does afterwards, the keys in the
      revoked users' files open nothing that is encrypted in the affected collections. */
  method RevokeForGood(s: Session, target: string, strict: bool, cmds: seq<Command>) returns (o: RevokeOutcome)
    requires s.Valid()
    modifies s
    ensures s.Valid()
    ensures o.Revoked? ==>
              RevokeSet(old(s.files), target, strict, o.users) &&
              forall k: Key :: k.coll in CollectionsOf(old(s.files), o.users) && k in s.records && s.records[k].payload.Sealed? ==>
                s.records[k].payload.dek !in KeysOf(old(s.files), o.users)
  {
    ghost var deks, files, records, nextDek := s.deks, s.files, s.records, s.nextDek;
    o := s.Revoke(target, strict, true);
    if o.Revoked? && CollectionsOf(files, o.users) != {} {
      ghost var newDeks: Deks :| newDeks.Keys == CollectionsOf(files, o.users)
        && (forall c :: c in newDeks ==> nextDek <= newDeks[c]) && s.deks == deks + newDeks;
      RotationLocksOut(deks, files, records, nextDek, o.users, newDeks, s.nextDek);
    }
    Drive(s, cmds);
  }
}
