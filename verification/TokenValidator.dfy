/**
 The validator object with its map of known tokens, and the table it writes through to. Each
 method does its locked steps in the source's order.
 */
module TokenValidator {
  import opened Options
  import opened TextOrder
  import opened Timestamps
  import opened Tokens

  /** A table row: the capability list as it was marshalled, in some order, and the expiry text. */
  datatype Row = Row(capabilities: seq<string>, expiresAt: string)

  datatype PersistedToken = PersistedToken(hash: string, capabilities: seq<string>)

  function ReadSets(rows: map<string, Row>): map<string, Saved> {
    map h | h in rows :: Saved(SetOf(rows[h].capabilities), rows[h].expiresAt)
  }

  /** What `Restore` makes of a list of rows: later ones replace earlier ones, empty hashes are skipped. */
  function RestoreAll(known: Known, rows: seq<PersistedToken>): Known
    decreases rows
  {
    if rows == [] then known
    else
      var last := rows[|rows| - 1];
      var before := RestoreAll(known, rows[..|rows| - 1]);
      if last.hash == "" then before else before[last.hash := SetOf(last.capabilities)]
  }

  /** Each remaining row once, in any order. */
  ghost predicate Lists(out: seq<PersistedToken>, rows: map<string, Row>) {
    && (forall i :: 0 <= i < |out| ==> out[i].hash in rows && out[i].capabilities == rows[out[i].hash].capabilities)
    && (forall h :: h in rows ==> exists i :: 0 <= i < |out| && out[i].hash == h)
  }

  class TokenTable {
    var rows: map<string, Row>

    constructor ()
      ensures rows == map[]
    {
      rows := map[];
    }

    /** The upsert of one known token. */
    method Save(hash: string, capabilities: seq<string>, expiresAt: string)
      modifies this
      ensures rows == old(rows)[hash := Row(capabilities, expiresAt)]
    {
      rows := rows[hash := Row(capabilities, expiresAt)];
    }

    /** Deletes the expired rows and lists the others. */
    method Load(now: string) returns (out: seq<PersistedToken>)
      modifies this
      ensures rows == map h | h in old(rows) && !Less(old(rows)[h].expiresAt, now) :: old(rows)[h]
      ensures Lists(out, rows)
    {
      rows := map h | h in rows && !Less(rows[h].expiresAt, now) :: rows[h];
      out := [];
      var left := rows.Keys;
      ghost var kept := rows;
      while left != {}
        invariant rows == kept && left <= rows.Keys
        invariant Lists(out, map h | h in rows && h !in left :: rows[h])
        decreases left
      {
        var h :| h in left;
        ghost var listed := map g | g in rows && g !in left :: rows[g];
        ListsOneMore(out, listed, h, rows[h]);
        out, left := out + [PersistedToken(h, rows[h].capabilities)], left - {h};
        assert listed[h := rows[h]] == map g | g in rows && g !in left :: rows[g];
      }
      assert rows == map h | h in rows && h !in left :: rows[h];
    }
  }

  lemma ListsOneMore(out: seq<PersistedToken>, rows: map<string, Row>, h: string, row: Row)
    requires Lists(out, rows) && h !in rows
    ensures Lists(out + [PersistedToken(h, row.capabilities)], rows[h := row])
  {
    var more := out + [PersistedToken(h, row.capabilities)];
    var wider := rows[h := row];
    forall g | g in wider ensures exists i :: 0 <= i < |more| && more[i].hash == g {
      if g == h {
        assert more[|out|].hash == h;
      } else {
        var i :| 0 <= i < |out| && out[i].hash == g;
        assert more[i].hash == g;
      }
    }
  }

  /** The first `n` rows of a listing restore exactly their own hashes, to the table's sets. */
  lemma {:induction false} RestoreAllIsRestored(out: seq<PersistedToken>, n: nat, rows: map<string, Row>)
    requires n <= |out| && Lists(out, rows)
    ensures forall h :: h in RestoreAll(map[], out[..n]) ==>
              h != "" && h in rows && RestoreAll(map[], out[..n])[h] == SetOf(rows[h].capabilities)
    ensures forall i :: 0 <= i < n && out[i].hash != "" ==> out[i].hash in RestoreAll(map[], out[..n])
  {
    hide SetOf;
    if n > 0 {
      RestoreAllIsRestored(out, n - 1, rows);
      RestoreOne(out, n);
    }
  }

  lemma RestoreOne(out: seq<PersistedToken>, n: nat)
    requires 0 < n <= |out|
    ensures var before := RestoreAll(map[], out[..n - 1]);
            RestoreAll(map[], out[..n]) ==
              if out[n - 1].hash == "" then before else before[out[n - 1].hash := SetOf(out[n - 1].capabilities)]
  {
    assert out[..n][..n - 1] == out[..n - 1] && out[..n][n - 1] == out[n - 1];
  }

  /** Restoring a listing of the table gives the map the table stands for. */
  lemma RestoreOfListing(out: seq<PersistedToken>, rows: map<string, Row>)
    requires Lists(out, rows)
    ensures RestoreAll(map[], out) == Restored(ReadSets(rows))
  {
    hide RestoreAll;
    RestoreAllIsRestored(out, |out|, rows);
    assert out[..|out|] == out;
    forall h | h in rows && h != "" ensures h in RestoreAll(map[], out) {
      var i :| 0 <= i < |out| && out[i].hash == h;
    }
  }

  lemma SetOfAppend(cs: seq<string>, c: string)
    ensures SetOf(cs + [c]) == SetOf(cs) + {c}
  {
  }

  class Validator {
    const setup: Setup
    var known: Known
    var persister: TokenTable?

    /** The view shared with the table the validator writes through to. */
    ghost function View(table: TokenTable): Memory
      reads this, table
    {
      Memory(known, ReadSets(table.rows))
    }

    constructor (setup: Setup)
      ensures this.setup == setup && known == map[] && persister == null
    {
      this.setup := setup;
      known, persister := map[], null;
    }

    method WithPersister(p: TokenTable?)
      modifies `persister
      ensures persister == p
    {
      persister := p;
    }

    method Restore(rows: seq<PersistedToken>)
      modifies `known
      ensures known == RestoreAll(old(known), rows)
    {
      var i := 0;
      while i < |rows|
        invariant 0 <= i <= |rows| && known == RestoreAll(old(known), rows[..i])
      {
        assert rows[..i + 1][..i] == rows[..i];
        if rows[i].hash != "" {
          known := known[rows[i].hash := SetOf(rows[i].capabilities)];
        }
        i := i + 1;
      }
      assert rows[..i] == rows;
    }

    /** Write-through: without a table it does nothing, with one it lists the set in any order. */
    method PersistKnown(hash: string, token: string, capabilities: set<string>, now: Clock)
      modifies persister
      ensures persister != null ==>
                ReadSets(persister.rows) ==
                  ReadSets(old(persister.rows))[hash := Saved(capabilities, ExpiryText(setup, token, now))]
    {
      hide ExpiryText;
      if persister == null {
        return;
      }
      var resources: seq<string> := [];
      var left := capabilities;
      while left != {}
        invariant persister.rows == old(persister.rows)
        invariant left <= capabilities && SetOf(resources) == capabilities - left
        decreases left
      {
        var r :| r in left;
        SetOfAppend(resources, r);
        resources, left := resources + [r], left - {r};
      }
      assert SetOf(resources) == capabilities;
      persister.Save(hash, resources, ExpiryText(setup, token, now));
    }

    /** The locked write both validations and registration end in. */
    method Remember(token: string, capabilities: set<string>, now: Clock)
      modifies `known, persister
      ensures persister != null ==> View(persister) == Learn(setup, old(View(persister)), token, capabilities, now)
      ensures known == old(known)[setup.hash(token) := capabilities]
    {
      hide ExpiryText;
      known := known[setup.hash(token) := capabilities];
      PersistKnown(setup.hash(token), token, capabilities, now);
    }

    method RegisterToken(token: string, capabilities: seq<string>, now: Clock)
      modifies `known, persister
      ensures persister != null ==>
                View(persister) == Learn(setup, old(View(persister)), token, SetOf(capabilities), now)
      ensures known == old(known)[setup.hash(token) := SetOf(capabilities)]
    {
      Remember(token, SetOf(capabilities), now);
    }

    /** Subject, root key or parent, capability by capability. */
    method CheckChain(c: Claims) returns (v: Verdict)
      ensures v == ChainCheck(setup, known, c)
    {
      if c.subject != SUBJECT {
        return Refused(WrongSubject);
      }
      if c.proof == "" {
        if setup.keyOf(c.issuer) != Some(setup.rootKey) {
          return Refused(NotRoot);
        }
        return Accepted(c);
      }
      if c.proof !in known {
        return Refused(UnknownProof);
      }
      var parent := known[c.proof];
      var i := 0;
      while i < |c.capabilities|
        invariant 0 <= i <= |c.capabilities|
        invariant forall j :: 0 <= j < i ==> c.capabilities[j] in parent
      {
        if c.capabilities[i] !in parent {
          assert c.capabilities[i] in SetOf(c.capabilities);
          return Refused(ExceedsParent);
        }
        i := i + 1;
      }
      v := Accepted(c);
    }

    /** Reads the clock for the date check and, when it writes the token through, once more. */
    method Validate(token: string, now: Clock, settled: Clock) returns (v: Verdict)
      modifies `known, persister
      ensures v == Tokens.Validate(setup, old(known), token, now)
      ensures persister != null ==> View(persister) == Settle(setup, old(View(persister)), token, v, settled)
      ensures v.Refused? ==> known == old(known)
    {
      hide ExpiryText;
      var claims := setup.claims(token);
      if claims.None? || !setup.verified(token) {
        return Refused(Malformed);
      }
      if !InDate(claims.value, now) {
        return Refused(OutOfDate);
      }
      v := CheckChain(claims.value);
      if v.Accepted? {
        Remember(token, SetOf(claims.value.capabilities), settled);
      }
    }

    method ValidateWithGrace(token: string, now: Clock, settled: Clock, grace: nat) returns (v: Verdict)
      modifies `known, persister
      ensures v == Tokens.ValidateWithGrace(setup, old(known), token, now, grace)
      ensures persister != null ==> View(persister) == Settle(setup, old(View(persister)), token, v, settled)
      ensures v.Refused? ==> known == old(known)
    {
      hide ExpiryText;
      var claims := setup.claims(token);
      if claims.None? || !setup.verified(token) {
        return Refused(Malformed);
      }
      if !InGrace(claims.value, now, grace) {
        return Refused(OutOfDate);
      }
      v := CheckChain(claims.value);
      if v.Accepted? {
        Remember(token, SetOf(claims.value.capabilities), settled);
      }
    }
  }

  /**
   A process start over an existing table: load and restore first, attach the table after, register
   the root token last.
   */
  method Start(setup: Setup, table: TokenTable, now: Clock) returns (v: Validator)
    modifies table
    ensures fresh(v) && v.setup == setup && v.persister == table
    ensures v.View(table) == Boot(setup, Memory(map[], ReadSets(old(table.rows))), now)
  {
    hide ExpiryText;
    v := new Validator(setup);
    var rows := table.Load(setup.format.row(now));
    RestoreOfListing(rows, table.rows);
    v.Restore(rows);
    v.WithPersister(table);
    assert ReadSets(table.rows) == Unexpired(ReadSets(old(table.rows)), setup.format.row(now));
    v.RegisterToken(setup.rootToken, ALL_CAPABILITIES, now);
  }

  /** The refresh endpoint on the object. */
  method Refresh(v: Validator, token: string, ttl: nat, r: Readings) returns (answer: Tokens.Refresh)
    requires v.persister != null && Fits(r.minted, ttl)
    modifies v`known, v.persister
    ensures v.persister == old(v.persister)
    ensures (v.View(v.persister), answer) == RefreshToken(v.setup, old(v.View(v.persister)), token, ttl, r)
  {
    hide ExpiryText, ChainCheck;
    var verdict := v.Validate(token, r.strict, r.settled);
    if verdict.Refused? {
      verdict := v.ValidateWithGrace(token, r.lenient, r.settled, GRACE);
      if verdict.Refused? {
        return Denied;
      }
    }
    answer := Renewed(v.setup, verdict.claims, ttl, r.minted);
    if answer.Granted? {
      v.RegisterToken(answer.token, verdict.claims.capabilities, r.registered);
    }
  }
}
