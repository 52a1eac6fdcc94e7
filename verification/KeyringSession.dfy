/** A vault driven by one unlocked keyring: granting, revoking and rotating in place. */
module KeyringSession {
  import opened Wrappers
  import opened Stores
  import opened Keyring
  import opened Delegation

  /** `RotationFailed`: the keyrings are gone, but a record did not open and the rotation gave up. */
  datatype RevokeOutcome = Revoked(users: set<string>) | RotationFailed(users: set<string>) | NoAccess | PermissionDenied

  /** The files after a rotation: the caller's own is rewritten, all others lose the collections. */
  function RotatedFiles(files: Files, collections: set<string>, caller: string, self: File): Files {
    (map u | u in files && u != caller :: Stripped(files[u], collections))[caller := self]
  }

  /** The collections whose keys the users hold. */
  function CollectionsOf(files: Files, users: set<string>): set<string> {
    set u, c | u in users && u in files && c in files[u].deks :: c
  }

  /** Who goes when `target` is revoked: the target, and under the strict cascade every admin that
      descends from it. */
  ghost predicate RevokeSet(files: Files, target: string, strict: bool, users: set<string>) {
    forall u :: u in users <==>
      u == target || (strict && target in files && files[target].role.Admin? && Descends(files, target, u))
  }

  function Restrict(newDeks: Deks, collections: set<string>): Deks {
    map c | c in newDeks && c in collections :: newDeks[c]
  }

  /** Same records, same versions, same texts, whatever the keys. */
  ghost predicate SameContents(a: RecordMap, b: RecordMap) {
    a.Keys == b.Keys && forall k :: k in a ==>
      a[k].v == b[k].v && a[k].payload.text == b[k].payload.text && a[k].payload.Clear? == b[k].payload.Clear?
  }

  /** Each record is as it was or re-encrypted, none in between; a record that did not open is as it
      was. */
  ghost predicate PartlyRotated(deks: Deks, newDeks: Deks, before: RecordMap, after: RecordMap) {
    && after.Keys == before.Keys
    && (forall k :: k in before ==> after[k] == before[k] || after[k] == RotatedRecord(deks, newDeks, k, before[k]))
    && (forall k :: k in before && k.coll in deks && Open(deks, k, before[k]).None? ==> after[k] == before[k])
  }

  class Session {
    const userId: string
    const role: Role
    const permissions: Permissions
    var deks: Deks
    var kek: Kek
    var salt: nat
    var files: Files
    var records: RecordMap
    var nextDek: nat
    var nextSalt: nat

    ghost predicate Valid()
      reads this
    {
      Coherent(deks, files, records, nextDek)
    }

    /** Keys to come are none of the session's. */
    ghost predicate Fresh()
      reads this
    {
      forall c :: c in deks ==> deks[c] < nextDek
    }

    function OwnFile(): File
      reads this
    {
      File(role, permissions, WrapAll(deks, kek), salt, userId)
    }

    /** `createOwnerKeyring`, in an empty vault. */
    constructor (userId: string, passphrase: string)
      ensures Valid() && this.userId == userId && role == Owner && deks == map[] && records == map[]
      ensures files == map[userId := File(Owner, map[], map[], 0, userId)]
    {
      this.userId, role, permissions := userId, Owner, map[];
      deks, records := map[], map[];
      kek, salt := Kek(passphrase, 0), 0;
      files := map[userId := File(Owner, map[], map[], 0, userId)];
      nextDek, nextSalt := 0, 1;
    }

    /** `loadKeyring`: a session of any role, in a vault that others have written to. */
    constructor Load(userId: string, passphrase: string, files: Files, records: RecordMap, nextDek: nat, nextSalt: nat)
      requires userId in files && Unlock(files[userId], passphrase).Some?
      requires forall c :: c in files[userId].deks ==> files[userId].deks[c].dek < nextDek
      ensures Fresh() && this.userId == userId && role == files[userId].role && permissions == files[userId].permissions
      ensures Some(deks) == Unlock(files[userId], passphrase) && kek == Kek(passphrase, files[userId].salt)
      ensures this.files == files && this.records == records && this.nextDek == nextDek
    {
      var f := files[userId];
      this.userId, role, permissions := userId, f.role, f.permissions;
      deks := map c | c in f.deks :: f.deks[c].dek;
      kek, salt := Kek(passphrase, f.salt), f.salt;
      this.files, this.records, this.nextDek, this.nextSalt := files, records, nextDek, nextSalt;
    }

    method PersistKeyring()
      modifies this`files
      ensures files == old(files)[userId := OwnFile()]
    {
      var wrapped: map<string, Wrapped> := map[];
      var todo := deks.Keys;
      while todo != {}
        invariant todo <= deks.Keys && wrapped.Keys == deks.Keys - todo
        invariant forall c :: c in wrapped ==> wrapped[c] == Wrap(deks[c], kek)
      {
        var c :| c in todo;
        wrapped, todo := wrapped[c := Wrap(deks[c], kek)], todo - {c};
      }
      assert wrapped == WrapAll(deks, kek);
      files := files[userId := File(role, permissions, wrapped, salt, userId)];
    }

    /** The key of a collection, made and stored on first use. */
    method EnsureCollectionDek(c: string) returns (dek: Dek)
      requires Fresh()
      modifies this
      ensures Fresh() && (old(Valid()) ==> Valid()) && c in deks && deks[c] == dek
      ensures records == old(records) && nextDek >= old(nextDek)
      ensures c in old(deks) ==> deks == old(deks) && files == old(files)
      ensures c !in old(deks) ==> deks == old(deks)[c := old(nextDek)] && files == old(files)[userId := OwnFile()]
    {
      if c in deks { return deks[c]; }
      dek := nextDek;
      nextDek := nextDek + 1;
      deks := deks[c := dek];
      PersistKeyring();
      if old(Valid()) {
        forall k | k in records
          ensures Open(deks, k, records[k]).Some?
        {
          assert Open(old(deks), k, records[k]).Some?;
        }
      }
    }

    /** A record write of the session; internal plain writes are not encrypted. */
    method PutRecord(k: Key, v: nat, text: string, encrypted: bool)
      requires Fresh()
      modifies this
      ensures Fresh() && (old(Valid()) ==> Valid()) && (files == old(files) || files == old(files)[userId := OwnFile()])
      ensures k in records && records[k].v == v && Open(deks, k, records[k]) == Some(text)
      ensures records[k].payload.Sealed? == encrypted
      ensures forall x :: x != k ==> Lookup(records, x) == Lookup(old(records), x)
      ensures nextDek >= old(nextDek) && (deks == old(deks) || deks == old(deks)[k.coll := old(nextDek)])
      ensures k.coll in old(deks) ==> deks == old(deks)
    {
      if encrypted {
        var dek := EnsureCollectionDek(k.coll);
        records := records[k := Stored(v, Sealed(dek, text))];
      } else {
        records := records[k := Stored(v, Clear(text))];
      }
    }

    /** False stands for `PermissionDenied`. */
    method Grant(user: string, target: Role, explicit: Permissions, passphrase: string) returns (ok: bool)
      modifies this`files, this`nextSalt
      ensures old(Valid()) ==> Valid()
      ensures ok <==> role.Owner? || (role.Admin? && !target.Owner?)
      ensures files == if ok then old(files)[user := GrantedFile(deks, target, explicit, passphrase, old(nextSalt), userId)] else old(files)
    {
      if !CanGrant(role, target) { return false; }
      var newPermissions := ResolvePermissions(target, explicit);
      var newSalt := nextSalt;
      nextSalt := nextSalt + 1;
      var newKek := Kek(passphrase, newSalt);
      var wrapped := WrapGranted(target, newPermissions, newKek);
      files := files[user := File(target, newPermissions, wrapped, newSalt, userId)];
      ok := true;
    }

    /** Permitted collections first, then by role, then the internal ones. */
    method WrapGranted(target: Role, permitted: Permissions, newKek: Kek) returns (wrapped: map<string, Wrapped>)
      ensures wrapped == WrapAll(map c | c in GrantedCollections(deks, target, permitted) :: deks[c], newKek)
    {
      wrapped := map[];
      var todo := permitted.Keys;
      while todo != {}
        invariant todo <= permitted.Keys
        invariant wrapped.Keys == (permitted.Keys - todo) * deks.Keys
        invariant forall c :: c in wrapped ==> wrapped[c] == Wrap(deks[c], newKek)
      {
        var c :| c in todo;
        if c in deks { wrapped := wrapped[c := Wrap(deks[c], newKek)]; }
        todo := todo - {c};
      }
      var seesAll := target.Owner? || target.Admin? || target.Viewer?;
      var rest := deks.Keys;
      while rest != {}
        invariant rest <= deks.Keys
        invariant forall c :: c in wrapped <==> c in deks && (c in permitted || (c !in rest && (seesAll || Internal(c))))
        invariant forall c :: c in wrapped ==> wrapped[c] == Wrap(deks[c], newKek)
      {
        var c :| c in rest;
        if seesAll || Internal(c) { wrapped := wrapped[c := Wrap(deks[c], newKek)]; }
        rest := rest - {c};
      }
    }

    /** Re-wraps the caller's keys under a new passphrase. */
    method ChangeSecret(passphrase: string)
      modifies this
      ensures (old(Valid()) ==> Valid()) && deks == old(deks) && records == old(records) && nextDek == old(nextDek)
      ensures kek == Kek(passphrase, old(nextSalt)) && files == old(files)[userId := OwnFile()]
      ensures Unlock(files[userId], passphrase) == Some(deks)
      ensures forall attempt :: Unlock(files[userId], attempt).Some? ==> attempt == passphrase || deks == map[]
    {
      salt := nextSalt;
      nextSalt := nextSalt + 1;
      kek := Kek(passphrase, salt);
      PersistKeyring();
      assert Unlock(files[userId], passphrase).value == deks;
      OwnKeysNeedPassphrase(files[userId], deks, passphrase);
    }

    // ----- Rotation ------------------------------------------------------------------------------------------

    method GenerateDeks(collections: set<string>) returns (newDeks: Deks)
      modifies this`nextDek
      ensures newDeks.Keys == collections && nextDek >= old(nextDek)
      ensures forall c :: c in newDeks ==> old(nextDek) <= newDeks[c] < nextDek
      ensures forall c, d :: c in newDeks && d in newDeks && c != d ==> newDeks[c] != newDeks[d]
    {
      newDeks := map[];
      var todo := collections;
      while todo != {}
        invariant todo <= collections && newDeks.Keys == collections - todo && nextDek >= old(nextDek)
        invariant forall c :: c in newDeks ==> old(nextDek) <= newDeks[c] < nextDek
        invariant forall c, d :: c in newDeks && d in newDeks && c != d ==> newDeks[c] != newDeks[d]
      {
        var c :| c in todo;
        newDeks, nextDek, todo := newDeks[c := nextDek], nextDek + 1, todo - {c};
      }
    }

    /** Re-encrypts the records of one collection; false if one of them does not open. */
    method RotateCollection(c: string, oldDek: Dek, newDek: Dek) returns (ok: bool)
      requires c in deks && deks[c] == oldDek && newDek != oldDek
      modifies this`records
      ensures ok <==> forall k :: k in old(records) && k.coll == c ==> Open(deks, k, old(records)[k]).Some?
      ensures ok ==> records == RotatedRecords(deks, map[c := newDek], old(records))
      ensures SameContents(records, old(records)) && PartlyRotated(deks, map[c := newDek], old(records), records)
      ensures forall k :: k in records && k.coll != c ==> records[k] == old(records)[k]
    {
      ghost var before := records;
      var ids := set k | k in records && k.coll == c;
      ghost var todo := ids;
      while ids != {}
        invariant ids <= todo && records.Keys == before.Keys
        invariant forall k :: k in todo <==> k in before && k.coll == c
        invariant forall k :: k in before ==>
          records[k] == if k in todo && k !in ids then RotatedRecord(deks, map[c := newDek], k, before[k]) else before[k]
        invariant forall k :: k in todo && k !in ids ==> Open(deks, k, before[k]).Some?
      {
        var k :| k in ids;
        var envelope := records[k];
        if envelope.payload.Sealed? {
          if envelope.payload.dek != oldDek {
            assert Open(deks, k, before[k]).None?;
            return false;
          }
          records := records[k := Stored(envelope.v, Sealed(newDek, envelope.payload.text))];
        }
        ids := ids - {k};
      }
      ok := true;
    }

    /** New keys for the collections: all records are re-encrypted, then the caller's keyring is
        stored, then the others lose their entries. If some record does not open, rotation stops:
        keyrings are as before, and the records have kept their contents but some may be sealed
        with a new key that nobody has. */
    method RotateKeys(collections: set<string>) returns (ok: bool, newDeks: Deks)
      requires Fresh()
      modifies this
      ensures Fresh() && newDeks.Keys == collections && nextDek >= old(nextDek)
      ensures forall c :: c in newDeks ==> old(nextDek) <= newDeks[c] < nextDek
      ensures ok <==> RotationRuns(old(deks), collections, old(records))
      ensures ok ==> deks == old(deks) + newDeks && records == RotatedRecords(old(deks), newDeks, old(records))
      ensures ok ==> files == RotatedFiles(old(files), collections, userId, OwnFile())
      ensures !ok ==> deks == old(deks) && files == old(files) && SameContents(records, old(records))
      ensures PartlyRotated(old(deks), newDeks, old(records), records)
      ensures kek == old(kek) && salt == old(salt) && nextSalt == old(nextSalt)
    {
      newDeks := GenerateDeks(collections);
      ok := ReencryptAll(collections, newDeks);
      if !ok { return; }
      deks := deks + newDeks;
      PersistKeyring();
      StripOthers(collections);
      OwnFileReplaced(old(files), collections, userId, OwnFile());
    }

    method ReencryptAll(collections: set<string>, newDeks: Deks) returns (ok: bool)
      requires newDeks.Keys == collections
      requires forall c :: c in deks && c in newDeks ==> deks[c] != newDeks[c]
      modifies this`records
      ensures ok <==> RotationRuns(deks, collections, old(records))
      ensures ok ==> records == RotatedRecords(deks, newDeks, old(records))
      ensures SameContents(records, old(records)) && PartlyRotated(deks, newDeks, old(records), records)
    {
      ghost var before := records;
      var todo := collections;
      while todo != {}
        invariant todo <= collections && SameContents(records, before)
        invariant RotationRuns(deks, collections - todo, before)
        invariant forall k :: k in before && k.coll in todo ==> records[k] == before[k]
        invariant records == RotatedRecords(deks, Restrict(newDeks, collections - todo), before)
      {
        var c :| c in todo;
        ghost var done, middle := collections - todo, records;
        if c in deks {
          var rotated := RotateCollection(c, deks[c], newDeks[c]);
          if !rotated {
            return false;
          }
        }
        todo := todo - {c};
        assert collections - todo == done + {c};
        RotateOneMore(deks, newDeks, done, c, before, middle, records);
      }
      assert Restrict(newDeks, collections - todo) == newDeks;
      assert collections - todo == collections;
      ok := true;
    }

    method StripOthers(collections: set<string>)
      requires userId in files
      modifies this`files
      ensures files == RotatedFiles(old(files), collections, userId, old(files)[userId])
    {
      ghost var before := files;
      var users := files.Keys - {userId};
      while users != {}
        invariant users <= before.Keys - {userId} && files.Keys == before.Keys
        invariant forall u :: u in before ==>
          files[u] == if u in users || u == userId then before[u] else Stripped(before[u], collections)
      {
        var u :| u in users;
        files := files[u := Stripped(files[u], collections)];
        users := users - {u};
      }
    }

    // ----- Revocation ------------------------------------------------------------------------------------------

    /** The users to revoke and the collections their keys open. */
    method CollectRevokeSet(target: string, strict: bool) returns (users: set<string>, affected: set<string>)
      requires target in files
      ensures RevokeSet(files, target, strict, users) && target in users && users <= files.Keys
      ensures affected == CollectionsOf(files, users)
    {
      users := {target};
      affected := files[target].deks.Keys;
      if files[target].role.Admin? {
        var descendants := FindAdminDescendants(files, target);
        if strict {
          var i := 0;
          while i < |descendants|
            invariant 0 <= i <= |descendants|
            invariant users == {target} + set u | u in descendants[..i]
            invariant users <= files.Keys && affected == CollectionsOf(files, users)
          {
            var u := descendants[i];
            assert descendants[..i + 1] == descendants[..i] + [u];
            ghost var was := users;
            users, affected := users + {u}, affected + files[u].deks.Keys;
            assert CollectionsOf(files, users) == CollectionsOf(files, was) + files[u].deks.Keys;
            i := i + 1;
          }
          assert descendants[..i] == descendants;
        }
      }
    }

    /** Revokes a user, and under the strict cascade every admin who descends from them; then, if
        asked to, rotates every collection they had keys for. In a coherent vault that never fails,
        and everything stays readable for the caller. */
    method Revoke(target: string, strict: bool, rotate: bool) returns (o: RevokeOutcome)
      requires Fresh()
      modifies this
      ensures Fresh() && (old(Valid()) ==> Valid() && !o.RotationFailed?)
      ensures o.NoAccess? <==> target !in old(files)
      ensures o.PermissionDenied? <==>
        target in old(files) && (old(files)[target].role.Owner? || !(role.Owner? || role.Admin?))
      ensures !o.Revoked? && !o.RotationFailed? ==> files == old(files) && records == old(records) && deks == old(deks)
      ensures o.Revoked? || o.RotationFailed? ==> RevokeSet(old(files), target, strict, o.users)
      ensures o.Revoked? || o.RotationFailed? ==> forall u ::
        u in o.users <==> u == target || (strict && old(files)[target].role.Admin? && Descends(old(files), target, u))
      ensures nextDek >= old(nextDek)
      ensures o.RotationFailed? ==>
        && files == old(files) - o.users && deks == old(deks) && SameContents(records, old(records))
        && rotate && !RotationRuns(old(deks), CollectionsOf(old(files), o.users), old(records))
      ensures o.Revoked? ==> var affected := CollectionsOf(old(files), o.users);
        if rotate && affected != {} then
          && files == RotatedFiles(old(files) - o.users, affected, userId, OwnFile())
          && (exists newDeks: Deks ::
                && newDeks.Keys == affected
                && (forall c :: c in newDeks ==> old(nextDek) <= newDeks[c])
                && deks == old(deks) + newDeks
                && records == RotatedRecords(old(deks), newDeks, old(records)))
        else files == old(files) - o.users && records == old(records) && deks == old(deks)
    {
      if target !in files { return NoAccess; }
      if !CanRevoke(role, files[target].role) { return PermissionDenied; }
      var users, affected := CollectRevokeSet(target, strict);
      files := files - users;
      if rotate && affected != {} {
        ghost var middle := files;
        var ok, newDeks := RotateKeys(affected);
        if old(Valid()) {
          assert Coherent(old(deks), middle, old(records), old(nextDek));
          if ok { RotationKeepsCoherent(old(deks), newDeks, middle, files, old(records), old(nextDek), nextDek); }
          RotationNeverFails(old(deks), middle, old(records), old(nextDek), affected);
        }
        if !ok { return RotationFailed(users); }
      }
      o := Revoked(users);
    }
  }

  lemma OwnKeysNeedPassphrase(f: File, deks: Deks, passphrase: string)
    requires f.deks == WrapAll(deks, Kek(passphrase, f.salt))
    ensures forall attempt :: Unlock(f, attempt).Some? ==> attempt == passphrase || deks == map[]
  {
    forall attempt | Unlock(f, attempt).Some? && deks != map[]
      ensures attempt == passphrase
    {
      var c :| c in deks;
      assert f.deks[c].kek == Kek(attempt, f.salt);
    }
  }

  lemma RotationNeverFails(deks: Deks, files: Files, records: RecordMap, nextDek: nat, collections: set<string>)
    requires Coherent(deks, files, records, nextDek)
    ensures RotationRuns(deks, collections, records)
  {
  }

  lemma OwnFileReplaced(files: Files, collections: set<string>, caller: string, self: File)
    ensures RotatedFiles(files[caller := self], collections, caller, self) == RotatedFiles(files, collections, caller, self)
  {
  }

  lemma RotateOneMore(deks: Deks, newDeks: Deks, done: set<string>, c: string, before: RecordMap, middle: RecordMap, after: RecordMap)
    requires c in newDeks && c !in done && done <= newDeks.Keys
    requires middle == RotatedRecords(deks, Restrict(newDeks, done), before)
    requires after == if c in deks then RotatedRecords(deks, map[c := newDeks[c]], middle) else middle
    ensures after == RotatedRecords(deks, Restrict(newDeks, done + {c}), before)
  {
    var goal := RotatedRecords(deks, Restrict(newDeks, done + {c}), before);
    forall k | k in before
      ensures after[k] == goal[k]
    {
    }
  }

  /** The keys a user could take from their file. */
  function HeldKeys(f: File): Deks {
    map c | c in f.deks :: f.deks[c].dek
  }

  /** What a revocation with rotation amounts to. The revoked keyrings are gone (a caller who is
      among them gets theirs back); everyone else keeps theirs and loses exactly the affected
      collections; the caller reads every affected record as before; and the keys the revoked users
      held open no encrypted record of those collections any more. */
  lemma RevocationMeans(deks: Deks, files: Files, records: RecordMap, nextDek: nat, users: set<string>, newDeks: Deks, caller: string, self: File)
    requires Coherent(deks, files, records, nextDek)
    requires newDeks.Keys == CollectionsOf(files, users)
    requires forall c :: c in newDeks ==> nextDek <= newDeks[c]
    ensures var affected := newDeks.Keys;
      var files', records' := RotatedFiles(files - users, affected, caller, self), RotatedRecords(deks, newDeks, records);
      && (forall u :: u in files' <==> u == caller || (u in files && u !in users))
      && (forall u :: u in files && u !in users && u != caller ==>
            && files'[u].deks.Keys == files[u].deks.Keys - affected
            && (forall c :: c in files'[u].deks ==> files'[u].deks[c] == files[u].deks[c])
            && files'[u].permissions.Keys == files[u].permissions.Keys - affected)
      && (forall k :: k in records && k.coll in affected ==>
            records'[k].v == records[k].v && Open(deks + newDeks, k, records'[k]) == Some(records[k].payload.text))
      && (forall u, k :: u in users && u in files && k in records && k.coll in affected && records[k].payload.Sealed? ==>
            Open(HeldKeys(files[u]), k, records'[k]) == None)
  {
    forall k | k in records && k.coll in newDeks
      ensures k.coll in deks && Open(deks + newDeks, k, RotatedRecords(deks, newDeks, records)[k]) == Some(records[k].payload.text)
    {
      var u :| u in users && u in files && k.coll in files[u].deks;
      assert Open(deks, k, records[k]).Some?;
    }
    forall u, k | u in users && u in files && k in records && k.coll in newDeks && records[k].payload.Sealed?
      ensures Open(HeldKeys(files[u]), k, RotatedRecords(deks, newDeks, records)[k]) == None
    {
      assert Open(deks, k, records[k]).Some?;
      forall c | c in HeldKeys(files[u])
        ensures HeldKeys(files[u])[c] < nextDek
      {
        assert c in files[u].deks && c in deks && files[u].deks[c].dek == deks[c];
        assert deks[c] < nextDek;
      }
      OldKeysOpenNothingNew(deks, newDeks, records, nextDek, HeldKeys(files[u]), k);
    }
  }
}
