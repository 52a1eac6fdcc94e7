/** Keyring files and the keys in them. Keys are symbolic: a generated key is a number never used
    before, a wrapped or sealed value opens under the key that made it and under no other. */
module Keyring {
  import opened Wrappers
  import opened Stores

  datatype Role = Owner | Admin | Operator | Viewer | Client

  datatype Permission = ReadOnly | ReadWrite

  type Permissions = map<string, Permission>

  /** A collection key, by its serial number. */
  type Dek = nat

  /** The key derived from a passphrase and a salt. */
  datatype Kek = Kek(passphrase: string, salt: nat)

  datatype Wrapped = Wrap(dek: Dek, kek: Kek)

  /** The keyring file of a user; it is stored under the user's id. */
  datatype File = File(role: Role, permissions: Permissions, deks: map<string, Wrapped>, salt: nat, grantedBy: string)

  type Files = map<string, File>

  /** An empty `_iv` marks a payload that is not encrypted. */
  datatype Payload = Clear(text: string) | Sealed(dek: Dek, text: string)

  datatype Stored = Stored(v: nat, payload: Payload)

  type RecordMap = map<Key, Stored>

  type Deks = map<string, Dek>

  // ----- Permissions ---------------------------------------------------------------------------------

  const ADMIN_GRANTABLE_TARGETS: set<Role> := {Operator, Viewer, Client, Admin}

  predicate CanGrant(caller: Role, target: Role) {
    caller.Owner? || (caller.Admin? && target in ADMIN_GRANTABLE_TARGETS)
  }

  predicate CanRevoke(caller: Role, target: Role) {
    !target.Owner? && (caller.Owner? || (caller.Admin? && target in ADMIN_GRANTABLE_TARGETS))
  }

  function ResolvePermissions(role: Role, explicit: Permissions): Permissions {
    if role.Owner? || role.Admin? || role.Viewer? then map[] else explicit
  }

  // ----- Opening things --------------------------------------------------------------------------------

  /** What the holder of `deks` reads in a record; `None` stands for a decryption error. */
  function Open(deks: Deks, k: Key, r: Stored): Option<string> {
    match r.payload
    case Clear(text) => Some(text)
    case Sealed(dek, text) => if k.coll in deks && deks[k.coll] == dek then Some(text) else None
  }

  /** `loadKeyring`: every wrapped key must open under the derived key. */
  function Unlock(f: File, passphrase: string): Option<Deks> {
    var kek := Kek(passphrase, f.salt);
    if forall c | c in f.deks :: f.deks[c].kek == kek then Some(map c | c in f.deks :: f.deks[c].dek) else None
  }

  function WrapAll(deks: Deks, kek: Kek): map<string, Wrapped> {
    map c | c in deks :: Wrap(deks[c], kek)
  }

  // ----- Grant -------------------------------------------------------------------------------------------

  /** The collections whose keys a grantee gets: the permitted ones the caller has, everything for
      the roles that see everything, and the internal collections in any case. */
  function GrantedCollections(deks: Deks, role: Role, permissions: Permissions): set<string> {
    set c | c in deks && (c in permissions || role.Owner? || role.Admin? || role.Viewer? || Internal(c))
  }

  function GrantedFile(deks: Deks, role: Role, explicit: Permissions, passphrase: string, salt: nat, caller: string): File {
    var permissions := ResolvePermissions(role, explicit);
    var granted := map c | c in GrantedCollections(deks, role, permissions) :: deks[c];
    File(role, permissions, WrapAll(granted, Kek(passphrase, salt)), salt, caller)
  }

  /** What a grant hands out is what the grantee unlocks with the passphrase, and only with it;
      every key in it is the caller's own. */
  lemma GrantUnlocks(deks: Deks, role: Role, explicit: Permissions, passphrase: string, salt: nat, caller: string, attempt: string)
    ensures var f := GrantedFile(deks, role, explicit, passphrase, salt, caller);
      && (attempt == passphrase || f.deks == map[] <==> Unlock(f, attempt).Some?)
      && (Unlock(f, attempt).Some? ==> Unlock(f, attempt).value.Keys == GrantedCollections(deks, role, f.permissions))
      && (forall c :: Unlock(f, attempt).Some? && c in Unlock(f, attempt).value ==> c in deks && Unlock(f, attempt).value[c] == deks[c])
  {
    var f := GrantedFile(deks, role, explicit, passphrase, salt, caller);
    if f.deks != map[] {
      var c :| c in f.deks;
      assert f.deks[c].kek == Kek(passphrase, salt);
    }
  }

  /** Owners, admins and viewers are given every key the caller has and no explicit permissions; operators
      and clients keep the permissions asked for and are given the keys of those collections and of the
      internal ones, whose names begin with an underscore. */
  lemma GrantGivesByRole(deks: Deks, role: Role, explicit: Permissions, passphrase: string, salt: nat, caller: string)
    ensures var f := GrantedFile(deks, role, explicit, passphrase, salt, caller);
      && f.role == role && f.grantedBy == caller
      && match role {
           case Owner => f.deks.Keys == deks.Keys && f.permissions == map[]
           case Admin => f.deks.Keys == deks.Keys && f.permissions == map[]
           case Viewer => f.deks.Keys == deks.Keys && f.permissions == map[]
           case Operator => f.permissions == explicit && forall c :: c in f.deks <==> c in deks && (c in explicit || "_" <= c)
           case Client => f.permissions == explicit && forall c :: c in f.deks <==> c in deks && (c in explicit || "_" <= c)
         }
  {
    forall c: string
      ensures "_" <= c <==> Internal(c)
    {
    }
  }

  // ----- Rotation ------------------------------------------------------------------------------------------

  /** Re-encryption of the records of the collections with a new key, where the caller has the old. */
  function RotatedRecord(deks: Deks, newDeks: Deks, k: Key, r: Stored): Stored {
    if k.coll in newDeks && k.coll in deks && r.payload.Sealed? then
      Stored(r.v, Sealed(newDeks[k.coll], r.payload.text))
    else r
  }

  function RotatedRecords(deks: Deks, newDeks: Deks, records: RecordMap): RecordMap {
    map k | k in records :: RotatedRecord(deks, newDeks, k, records[k])
  }

  /** Rotation decrypts every record it rewrites; one that does not open aborts it. */
  ghost predicate RotationRuns(deks: Deks, collections: set<string>, records: RecordMap) {
    forall k :: k in records && k.coll in collections && k.coll in deks ==> Open(deks, k, records[k]).Some?
  }

  /** A remaining user's file without the rotated collections. */
  function Stripped(f: File, collections: set<string>): File {
    f.(deks := f.deks - collections, permissions := f.permissions - collections)
  }

  /** After a rotation the caller reads a record of a rotated collection, with its old text and at
      its old version, exactly if it was clear or the caller held the collection's key before. A clear one stays readable to
      anyone. */
  lemma RotatedRecordOpensExactly(deks: Deks, newDeks: Deks, records: RecordMap, k: Key)
    requires k in records && k.coll in newDeks && RotationRuns(deks, newDeks.Keys, records)
    requires records[k].payload.Sealed? ==> records[k].payload.dek != newDeks[k.coll]
    ensures var r := RotatedRecords(deks, newDeks, records)[k];
      && r.v == records[k].v
      && (Open(deks + newDeks, k, r) == Some(records[k].payload.text) <==> records[k].payload.Clear? || k.coll in deks)
      && (records[k].payload.Clear? ==> forall anyone :: Open(anyone, k, r) == Some(records[k].payload.text))
  {
  }

  // ----- The invariant of a session --------------------------------------------------------------------------

  /** Every stored key of a collection is the caller's current key, and every encrypted record is
      sealed with it. */
  ghost predicate Coherent(deks: Deks, files: Files, records: RecordMap, nextDek: nat) {
    && (forall c :: c in deks ==> deks[c] < nextDek)
    && (forall u, c :: u in files && c in files[u].deks ==> c in deks && files[u].deks[c].dek == deks[c])
    && (forall k :: k in records ==> Open(deks, k, records[k]).Some?)
  }

  /** In a coherent vault rotation never aborts, and keeps the vault coherent. */
  lemma RotationKeepsCoherent(deks: Deks, newDeks: Deks, files: Files, files': Files, records: RecordMap, nextDek: nat, nextDek': nat)
    requires Coherent(deks, files, records, nextDek) && nextDek <= nextDek'
    requires forall c :: c in newDeks ==> nextDek <= newDeks[c] < nextDek'
    requires forall u, c :: u in files' && c in files'[u].deks ==>
      (c in deks + newDeks && files'[u].deks[c].dek == (deks + newDeks)[c]) ||
      (u in files && c !in newDeks && c in files[u].deks && files'[u].deks[c] == files[u].deks[c])
    ensures RotationRuns(deks, newDeks.Keys, records)
    ensures Coherent(deks + newDeks, files', RotatedRecords(deks, newDeks, records), nextDek')
  {
    RotatedOpens(deks, newDeks, records);
    forall u, c | u in files' && c in files'[u].deks
      ensures c in deks + newDeks && files'[u].deks[c].dek == (deks + newDeks)[c]
    {
      assert u in files && c in files[u].deks ==> files[u].deks[c].dek == deks[c];
    }
  }

  lemma RotatedOpens(deks: Deks, newDeks: Deks, records: RecordMap)
    requires forall k :: k in records ==> Open(deks, k, records[k]).Some?
    ensures forall k :: k in records ==> Open(deks + newDeks, k, RotatedRecords(deks, newDeks, records)[k]).Some?
  {
    forall k | k in records
      ensures Open(deks + newDeks, k, RotatedRecord(deks, newDeks, k, records[k])).Some?
    {
      assert Open(deks, k, records[k]).Some?;
    }
  }

  /** Keys taken from a file before a rotation open nothing that the rotation has re-encrypted. */
  lemma OldKeysOpenNothingNew(deks: Deks, newDeks: Deks, records: RecordMap, nextDek: nat, stolen: Deks, k: Key)
    requires forall c :: c in stolen ==> stolen[c] < nextDek
    requires forall c :: c in newDeks ==> nextDek <= newDeks[c]
    requires k in records && records[k].payload.Sealed? && k.coll in newDeks && k.coll in deks
    ensures Open(stolen, k, RotatedRecords(deks, newDeks, records)[k]) == None
  {
  }
}
