/** Sealed values and moving them all from one key to another. */
module Rotation {
  import opened Wrappers
  import opened Decimals

  // ---------- boxes ----------

  // An authenticated cipher with its base64 transport; seal takes a nonce, a name bound into the
  // result, and the value.
  datatype Cipher = Cipher(seal: (string, string, string) -> string, open: (string, string) -> Option<string>)

  ghost predicate OpensWhatItSeals(c: Cipher) {
    forall nonce, name, value :: c.open(name, c.seal(nonce, name, value)) == Some(value)
  }

  datatype Failure = Malformed | NoKey | OtherKey | NoRandomness | EmptyKey | Database

  const PLAIN := "plain:"
  const ENC := "enc:v1:"

  // What stands before and after the first colon.
  function Cut(s: string): Option<(string, string)> {
    if s == "" then None
    else if s[0] == ':' then Some(("", s[1..]))
    else
      var rest := Cut(s[1..]);
      if rest.None? then None else Some(([s[0]] + rest.value.0, rest.value.1))
  }

  // No cipher: values are kept in the clear.
  datatype Box = Box(cipher: Option<Cipher>, keyID: string) {
    predicate Enabled() { cipher.Some? }

    // A key id is hexadecimal, so the colon after it ends it.
    ghost predicate Valid() { ':' !in keyID && (cipher.Some? ==> OpensWhatItSeals(cipher.value)) }

    // nonce is None when no randomness was to be had.
    function Seal(name: string, value: string, nonce: Option<string>): Result<string, Failure> {
      if !Enabled() then Ok(PLAIN + value)
      else if nonce.None? then Err(NoRandomness)
      else Ok(ENC + keyID + ":" + cipher.value.seal(nonce.value, name, value))
    }

    predicate Owns(stored: string) {
      ENC <= stored && Enabled() &&
      var cut := Cut(stored[|ENC|..]);
      cut.Some? && cut.value.0 == keyID
    }

    function Open(name: string, stored: string): Result<string, Failure> {
      if PLAIN <= stored then Ok(stored[|PLAIN|..])
      else if !(ENC <= stored) then Ok(stored)
      else
        var cut := Cut(stored[|ENC|..]);
        if cut.None? then Err(Malformed)
        else if !Enabled() then Err(NoKey)
        else if cut.value.0 != keyID then Err(OtherKey)
        else
          var value := cipher.value.open(name, cut.value.1);
          if value.None? then Err(Malformed) else Ok(value.value)
    }
  }

  lemma {:induction false} CutAfter(a: string, b: string)
    requires ':' !in a
    ensures Cut(a + ":" + b) == Some((a, b))
  {
    var s := a + ":" + b;
    if a == "" {
      assert s[1..] == b;
    } else {
      CutAfter(a[1..], b);
      assert s[1..] == a[1..] + ":" + b;
      assert [a[0]] + a[1..] == a;
    }
  }

  lemma {:induction false} CutJoins(s: string)
    ensures var cut := Cut(s);
            cut.Some? ==> s == cut.value.0 + ":" + cut.value.1 && ':' !in cut.value.0
    ensures Cut(s).None? <==> ':' !in s
  {
    if s != "" {
      CutJoins(s[1..]);
      assert s == [s[0]] + s[1..];
    }
  }

  lemma EncParts(id: string, payload: string)
    ensures var s := ENC + id + ":" + payload;
            ENC <= s && s[|ENC|..] == id + ":" + payload && !(PLAIN <= s)
  {
    var s := ENC + id + ":" + payload;
    assert s == ENC + (id + ":" + payload);
    assert s[0] == 'e' && PLAIN[0] == 'p';
  }

  // Values written in the clear, with the prefix or from before there was one, open as themselves
  // whatever the key; sealed ones want their own key.
  lemma OpensTheClear(b: Box, name: string, stored: string)
    ensures b.Open(name, PLAIN + stored) == Ok(stored) && !b.Owns(PLAIN + stored)
    ensures !(PLAIN <= stored) && !(ENC <= stored) ==> b.Open(name, stored) == Ok(stored) && !b.Owns(stored)
  {
    assert (PLAIN + stored)[|PLAIN|..] == stored;
    assert (PLAIN + stored)[0] == 'p' && ENC[0] == 'e';
  }

  // What a box seals, it opens under the same name, and calls its own.
  lemma SealOpens(b: Box, name: string, value: string, nonce: Option<string>)
    requires b.Valid()
    ensures var s := b.Seal(name, value, nonce);
            s.Ok? ==> b.Open(name, s.value) == Ok(value) && (b.Owns(s.value) <==> b.Enabled()) && s.value != ""
    ensures b.Seal(name, value, nonce).Err? <==> b.Enabled() && nonce.None?
  {
    if b.Enabled() && nonce.Some? {
      var payload := b.cipher.value.seal(nonce.value, name, value);
      EncParts(b.keyID, payload);
      CutAfter(b.keyID, payload);
    } else if !b.Enabled() {
      assert (PLAIN + value)[|PLAIN|..] == value;
    }
  }

  // A box owns exactly what starts with the sealing prefix and its own key id.
  lemma OwnsExactly(b: Box, stored: string)
    requires b.Valid()
    ensures b.Owns(stored) <==> b.Enabled() && ENC + b.keyID + ":" <= stored
  {
    var p := ENC + b.keyID + ":";
    if ENC <= stored { CutJoins(stored[|ENC|..]); assert stored == ENC + stored[|ENC|..]; }
    if b.Owns(stored) {
      var cut := Cut(stored[|ENC|..]).value;
      assert stored == p + cut.1;
    }
    if p <= stored {
      EncParts(b.keyID, stored[|p|..]);
      assert stored == p + stored[|p|..];
      CutAfter(b.keyID, stored[|p|..]);
    }
  }

  lemma OwnedByAnother(prev: Box, next: Box, name: string, stored: string)
    requires next.Owns(stored) && prev.keyID != next.keyID
    ensures prev.Open(name, stored).Err? && !prev.Owns(stored)
  {
    assert stored[0] == ENC[0] && PLAIN[0] != ENC[0];
  }

  // ---------- where ciphertext lives ----------

  // One cell of each sealed column, by its row's key.
  datatype Cell =
    | Component(variable: string, component: string)
    | Config(node: string, version: int)
    | Probe(node: string, version: int)
    | Skeleton(node: string)
    | Credential(id: string)
    | AlertTarget(id: string)
    | MFACredential(id: string)
    | Device(user: string, ipHash: string)
    | SubToken(user: string)
    | Relay(id: string)
    | EgressRule(id: string)

  // The name bound into a cell's ciphertext.
  function Aad(c: Cell): string {
    match c
    case Component(v, n) => v + ":" + n
    case Config(n, v) => "node-config:" + (n + ":" + SignedDecimal(v))
    case Probe(n, v) => "node-probe:" + (n + ":" + SignedDecimal(v))
    case Skeleton(n) => "node-skeleton:" + n
    case Credential(id) => "credential:" + id
    case AlertTarget(id) => "alert-target:" + id
    case MFACredential(id) => "mfa-credential:" + id
    case Device(u, h) => "user-device:" + (u + ":" + h)
    case SubToken(u) => "sub-token:" + u
    case Relay(id) => "node-relay:" + id
    case EgressRule(id) => "egress-rule:" + id
  }

  datatype Column = ComponentValue | ConfigText | ProbeOutbound | NodeSkeleton | CredentialSecret | AlertConfig
                  | MFASecret | DeviceIp | UserSubToken | RelaySecret | EgressSecret

  const SEALED_COLUMNS := [ComponentValue, ConfigText, ProbeOutbound, NodeSkeleton, CredentialSecret, AlertConfig,
                           MFASecret, DeviceIp, UserSubToken, RelaySecret, EgressSecret]

  function ColumnOf(c: Cell): Column {
    match c
    case Component(_, _) => ComponentValue
    case Config(_, _) => ConfigText
    case Probe(_, _) => ProbeOutbound
    case Skeleton(_) => NodeSkeleton
    case Credential(_) => CredentialSecret
    case AlertTarget(_) => AlertConfig
    case MFACredential(_) => MFASecret
    case Device(_, _) => DeviceIp
    case SubToken(_) => UserSubToken
    case Relay(_) => RelaySecret
    case EgressRule(_) => EgressSecret
  }

  lemma EveryColumnListed(c: Cell)
    ensures ColumnOf(c) in SEALED_COLUMNS
  {
    assert forall i :: 0 <= i < |SEALED_COLUMNS| ==> SEALED_COLUMNS[i] in SEALED_COLUMNS;
    assert SEALED_COLUMNS == [SEALED_COLUMNS[0], SEALED_COLUMNS[1], SEALED_COLUMNS[2], SEALED_COLUMNS[3], SEALED_COLUMNS[4],
                              SEALED_COLUMNS[5], SEALED_COLUMNS[6], SEALED_COLUMNS[7], SEALED_COLUMNS[8], SEALED_COLUMNS[9], SEALED_COLUMNS[10]];
  }

  // ---------- binding ----------

  function Tag(c: Cell): string {
    match c
    case Component(v, _) => v
    case Config(_, _) => "node-config"
    case Probe(_, _) => "node-probe"
    case Skeleton(_) => "node-skeleton"
    case Credential(_) => "credential"
    case AlertTarget(_) => "alert-target"
    case MFACredential(_) => "mfa-credential"
    case Device(_, _) => "user-device"
    case SubToken(_) => "sub-token"
    case Relay(_) => "node-relay"
    case EgressRule(_) => "egress-rule"
  }

  function Rest(c: Cell): string {
    match c
    case Component(_, n) => n
    case Config(n, v) => n + ":" + SignedDecimal(v)
    case Probe(n, v) => n + ":" + SignedDecimal(v)
    case Skeleton(n) => n
    case Device(u, h) => u + ":" + h
    case SubToken(u) => u
    case _ => c.id
  }

  const TAGS := {"node-config", "node-probe", "node-skeleton", "credential", "alert-target", "mfa-credential",
                 "user-device", "sub-token", "node-relay", "egress-rule"}

  // Ids hold no colon, and no variable's id is one of the fixed tags.
  predicate PlainIds(c: Cell) {
    match c
    case Component(v, _) => ':' !in v && v !in TAGS
    case Config(n, _) => ':' !in n
    case Probe(n, _) => ':' !in n
    case Device(u, _) => ':' !in u
    case _ => true
  }

  lemma AadParts(c: Cell)
    requires PlainIds(c)
    ensures Aad(c) == Tag(c) + ":" + Rest(c) && Cut(Aad(c)) == Some((Tag(c), Rest(c)))
    ensures c.Component? || Tag(c) in TAGS
  {
    assert ':' !in Tag(c);
    assert Aad(c) == Tag(c) + ":" + Rest(c);
    CutAfter(Tag(c), Rest(c));
  }

  lemma SameTag(c: Cell, e: Cell)
    requires PlainIds(c) && PlainIds(e) && Tag(c) == Tag(e)
    ensures ColumnOf(c) == ColumnOf(e)
  {
    AadParts(c);
    AadParts(e);
  }

  // No two cells bind the same name, so ciphertext moved to another row or column does not open.
  lemma AadsDistinct(c: Cell, e: Cell)
    requires PlainIds(c) && PlainIds(e) && Aad(c) == Aad(e)
    ensures c == e
  {
    AadParts(c);
    AadParts(e);
    SameTag(c, e);
    if c.Config? || c.Probe? {
      CutAfter(c.node, SignedDecimal(c.version));
      CutAfter(e.node, SignedDecimal(e.version));
      SignedDecimalInjective(c.version, e.version);
    } else if c.Device? {
      CutAfter(c.user, c.ipHash);
      CutAfter(e.user, e.ipHash);
    }
  }

  // ---------- rotation ----------

  type Cells = map<Cell, string>

  // Rows a rotation selects: not empty, and of components only the secret ones.
  predicate Selected(cells: Cells, secrets: set<Cell>, c: Cell) {
    c in cells && cells[c] != "" && (c.Component? ==> c in secrets)
  }

  function Moves(cells: Cells, secrets: set<Cell>, next: Box): set<Cell> {
    set c | c in cells && Selected(cells, secrets, c) && !next.Owns(cells[c])
  }

  // What may go wrong outside: no randomness for a cell, a write that fails.
  datatype World = World(nonce: Cell -> Option<string>, stuck: set<Cell>, commits: bool)

  function Resealed(prev: Box, next: Box, c: Cell, value: string, w: World): Result<string, Failure> {
    var plain := prev.Open(Aad(c), value);
    if plain.Err? then plain
    else
      var sealed := next.Seal(Aad(c), plain.value, w.nonce(c));
      if sealed.Ok? && c in w.stuck then Err(Database) else sealed
  }

  predicate AllReseal(cells: Cells, moves: set<Cell>, prev: Box, next: Box, w: World) {
    forall c :: c in moves ==> c in cells && Resealed(prev, next, c, cells[c], w).Ok?
  }

  function Rotated(cells: Cells, moves: set<Cell>, prev: Box, next: Box, w: World): Cells
    requires AllReseal(cells, moves, prev, next, w)
  {
    map c | c in cells :: if c in moves then Resealed(prev, next, c, cells[c], w).value else cells[c]
  }

  function InColumn(s: set<Cell>, col: Column): set<Cell> { set c | c in s && ColumnOf(c) == col }

  lemma RotatedOneMore(cells: Cells, done: set<Cell>, prev: Box, next: Box, w: World, c: Cell)
    requires AllReseal(cells, done + {c}, prev, next, w) && c !in done
    ensures Rotated(cells, done + {c}, prev, next, w) ==
            Rotated(cells, done, prev, next, w)[c := Resealed(prev, next, c, cells[c], w).value]
    ensures c in cells && Rotated(cells, done, prev, next, w)[c] == cells[c]
  {
  }

  // Of the cells to move, those done are done and the rest are still to do.
  ghost predicate PartWay(tx: Cells, moves: set<Cell>, next: Box, todo: set<Cell>, done: set<Cell>) {
    && (forall c :: c in todo ==> c in tx && c !in done && (c in moves <==> !next.Owns(tx[c])))
    && (forall c :: c in moves ==> c in done || c in todo)
    && (forall c :: c in done ==> c in moves)
    && (todo == {} ==> done == moves)
  }

  lemma NextCell(tx: Cells, moves: set<Cell>, next: Box, todo: set<Cell>, done: set<Cell>, c: Cell)
    requires PartWay(tx, moves, next, todo, done) && c in todo
    ensures c in tx && c !in done && (c in moves <==> !next.Owns(tx[c]))
    ensures PartWay(tx, moves, next, todo - {c}, if next.Owns(tx[c]) then done else done + {c})
  {
    var done' := if next.Owns(tx[c]) then done else done + {c};
    if todo - {c} == {} {
      forall e | e in moves ensures e in done' { assert e !in todo - {c}; }
    }
  }

  // A column not yet visited reads, inside the transaction, as it did before it.
  lemma ColumnAhead(cells: Cells, done: set<Cell>, secrets: set<Cell>, prev: Box, next: Box, w: World, col: Column)
    requires AllReseal(cells, done, prev, next, w) && forall c :: c in done ==> ColumnOf(c) != col
    ensures var tx := Rotated(cells, done, prev, next, w);
            && InColumn(Moves(tx, secrets, next), col) == InColumn(Moves(cells, secrets, next), col)
            && (AllReseal(tx, InColumn(Moves(tx, secrets, next), col), prev, next, w) <==>
                AllReseal(cells, InColumn(Moves(cells, secrets, next), col), prev, next, w))
  {
    var tx := Rotated(cells, done, prev, next, w);
    forall c ensures c in InColumn(Moves(tx, secrets, next), col) <==> c in InColumn(Moves(cells, secrets, next), col) {
      assert ColumnOf(c) == col && c in cells ==> tx[c] == cells[c];
    }
    forall c | c in InColumn(Moves(cells, secrets, next), col) ensures tx[c] == cells[c] {
      assert ColumnOf(c) == col && c in cells;
    }
  }

  lemma RotatedColumn(cells: Cells, done: set<Cell>, here: set<Cell>, prev: Box, next: Box, w: World)
    requires AllReseal(cells, done, prev, next, w) && AllReseal(cells, here, prev, next, w) && done !! here
    ensures var tx := Rotated(cells, done, prev, next, w);
            AllReseal(tx, here, prev, next, w) && AllReseal(cells, done + here, prev, next, w) &&
            Rotated(tx, here, prev, next, w) == Rotated(cells, done + here, prev, next, w)
  {
    var tx := Rotated(cells, done, prev, next, w);
    forall c | c in here ensures tx[c] == cells[c] {}
  }

  lemma FewerReseal(cells: Cells, fewer: set<Cell>, more: set<Cell>, prev: Box, next: Box, w: World)
    requires fewer <= more
    ensures AllReseal(cells, more, prev, next, w) ==> AllReseal(cells, fewer, prev, next, w)
  {
  }

  // The first i columns are done.
  ghost predicate Through(moves: set<Cell>, i: nat, done: set<Cell>)
    requires i <= |SEALED_COLUMNS|
  {
    done <= moves && forall c :: c in moves ==> (c in done <==> ColumnOf(c) in SEALED_COLUMNS[..i])
  }

  lemma NextColumn(moves: set<Cell>, i: nat, done: set<Cell>)
    requires i < |SEALED_COLUMNS| && Through(moves, i, done)
    ensures done !! InColumn(moves, SEALED_COLUMNS[i]) && forall c :: c in done ==> ColumnOf(c) != SEALED_COLUMNS[i]
    ensures |done + InColumn(moves, SEALED_COLUMNS[i])| == |done| + |InColumn(moves, SEALED_COLUMNS[i])|
    ensures Through(moves, i + 1, done + InColumn(moves, SEALED_COLUMNS[i]))
  {
    assert SEALED_COLUMNS[i] !in SEALED_COLUMNS[..i];
    assert SEALED_COLUMNS[..i + 1] == SEALED_COLUMNS[..i] + [SEALED_COLUMNS[i]];
  }

  lemma LastColumn(moves: set<Cell>, done: set<Cell>)
    requires Through(moves, |SEALED_COLUMNS|, done)
    ensures done == moves
  {
    forall c | c in moves ensures c in done {
      EveryColumnListed(c);
      assert SEALED_COLUMNS[..|SEALED_COLUMNS|] == SEALED_COLUMNS;
    }
  }

  ghost predicate Rotates(cells: Cells, secrets: set<Cell>, prev: Box, next: Box, w: World) {
    prev.Valid() && next.Valid() && next.Enabled() &&
    AllReseal(cells, Moves(cells, secrets, next), prev, next, w)
  }

  // What a successful rotation has done to one cell, said of the cell itself. The new key owns
  // every value there is to seal, the secret components among them, and under differing key ids
  // each reads as it did; what is empty or public has not changed.
  ghost predicate CellRotated(was: string, secret: bool, c: Cell, after: string, prev: Box, next: Box) {
    if was != "" && (c.Component? ==> secret) then
      && next.Owns(after)
      && (prev.keyID != next.keyID && prev.Open(Aad(c), was).Ok? ==> next.Open(Aad(c), after) == prev.Open(Aad(c), was))
    else after == was
  }

  ghost predicate EveryCellRotated(cells: Cells, secrets: set<Cell>, after: Cells, prev: Box, next: Box) {
    after.Keys == cells.Keys && forall c :: c in cells ==> CellRotated(cells[c], c in secrets, c, after[c], prev, next)
  }

  lemma RotationReachesCell(cells: Cells, secrets: set<Cell>, prev: Box, next: Box, w: World, c: Cell)
    requires Rotates(cells, secrets, prev, next, w) && c in cells
    ensures CellRotated(cells[c], c in secrets, c, Rotated(cells, Moves(cells, secrets, next), prev, next, w)[c], prev, next)
  {
    if cells[c] != "" && (c.Component? ==> c in secrets) {
      if next.Owns(cells[c]) {
        if prev.keyID != next.keyID { OwnedByAnother(prev, next, Aad(c), cells[c]); }
      } else {
        assert c in Moves(cells, secrets, next);
        SealOpens(next, Aad(c), prev.Open(Aad(c), cells[c]).value, w.nonce(c));
      }
    }
  }

  lemma RotationReachesEveryCell(cells: Cells, secrets: set<Cell>, prev: Box, next: Box, w: World)
    requires Rotates(cells, secrets, prev, next, w)
    ensures EveryCellRotated(cells, secrets, Rotated(cells, Moves(cells, secrets, next), prev, next, w), prev, next)
  {
    forall c | c in cells
      ensures CellRotated(cells[c], c in secrets, c, Rotated(cells, Moves(cells, secrets, next), prev, next, w)[c], prev, next)
    {
      RotationReachesCell(cells, secrets, prev, next, w, c);
    }
  }

  lemma MovesAre(cells: Cells, secrets: set<Cell>, next: Box)
    ensures Moves(cells, secrets, next) ==
            set c | c in cells && cells[c] != "" && (c.Component? ==> c in secrets) && !next.Owns(cells[c])
  {
  }

  class Store {
    var cells: Cells
    // the rows whose "secret" column is 1
    var secrets: set<Cell>
    const box: Box

    constructor (box: Box, cells: Cells, secrets: set<Cell>)
      ensures this.box == box && this.cells == cells && this.secrets == secrets
    {
      this.box, this.cells, this.secrets := box, cells, secrets;
    }

    method Reseal(next: Box, c: Cell, value: string, w: World) returns (r: Result<string, Failure>)
      ensures r == Resealed(box, next, c, value, w)
    {
      var plain := box.Open(Aad(c), value);
      if plain.Err? { return plain; }
      r := next.Seal(Aad(c), plain.value, w.nonce(c));
      if r.Ok? && c in w.stuck { r := Err(Database); }
    }

    // One column inside the transaction: tx goes in, and comes back with that column re-sealed.
    method RotateColumn(tx: Cells, next: Box, col: Column, w: World) returns (after: Cells, moved: Result<nat, Failure>)
      ensures var moves := InColumn(Moves(tx, secrets, next), col);
              if AllReseal(tx, moves, box, next, w)
              then moved == Ok(|moves|) && after == Rotated(tx, moves, box, next, w)
              else moved.Err?
    {
      after := tx;
      var todo := set c | c in tx && Selected(tx, secrets, c) && ColumnOf(c) == col;
      var count := 0;
      ghost var done: set<Cell> := {};
      ghost var moves := InColumn(Moves(tx, secrets, next), col);
      while todo != {}
        invariant PartWay(tx, moves, next, todo, done)
        invariant count == |done| && AllReseal(tx, done, box, next, w) && after == Rotated(tx, done, box, next, w)
        decreases todo
      {
        var c :| c in todo;
        NextCell(tx, moves, next, todo, done, c);
        todo := todo - {c};
        assert after[c] == tx[c];
        if next.Owns(after[c]) { continue; }
        var resealed := Reseal(next, c, after[c], w);
        if resealed.Err? { return after, Err(resealed.error); }
        RotatedOneMore(tx, done, box, next, w, c);
        after := after[c := resealed.value];
        count := count + 1;
        done := done + {c};
      }
      return after, Ok(count);
    }

    // All or nothing. It fails exactly when the new key is empty, some value does not open or
    // cannot be sealed or written, or the commit fails.
    method RotateSecretKey(next: Box, w: World) returns (moved: Result<nat, Failure>)
      modifies this`cells
      ensures var moves := Moves(old(cells), secrets, next);
              moved.Ok? <==> next.Enabled() && w.commits && AllReseal(old(cells), moves, box, next, w)
      ensures moved.Err? ==> cells == old(cells)
      ensures moved.Ok? ==> moved.value == |Moves(old(cells), secrets, next)| &&
                            cells == Rotated(old(cells), Moves(old(cells), secrets, next), box, next, w)
      ensures moved.Ok? && box.Valid() && next.Valid() ==>
                EveryCellRotated(old(cells), secrets, cells, box, next)
      ensures moved.Ok? ==>
                moved.value == |set c | c in old(cells) && old(cells)[c] != "" && (c.Component? ==> c in secrets) && !next.Owns(old(cells)[c])|
    {
      if !next.Enabled() { return Err(EmptyKey); }
      var tx := cells;
      var count := 0;
      ghost var moves := Moves(cells, secrets, next);
      ghost var done: set<Cell> := {};
      for i := 0 to |SEALED_COLUMNS|
        invariant cells == old(cells) && Through(moves, i, done)
        invariant count == |done| && AllReseal(cells, done, box, next, w) && tx == Rotated(cells, done, box, next, w)
      {
        NextColumn(moves, i, done);
        ColumnAhead(cells, done, secrets, box, next, w, SEALED_COLUMNS[i]);
        ghost var here := InColumn(moves, SEALED_COLUMNS[i]);
        var after, n := RotateColumn(tx, next, SEALED_COLUMNS[i], w);
        if n.Err? {
          FewerReseal(cells, here, moves, box, next, w);
          return Err(n.error);
        }
        RotatedColumn(cells, done, here, box, next, w);
        tx, count := after, count + n.value;
        done := done + here;
      }
      LastColumn(moves, done);
      if !w.commits { return Err(Database); }
      MovesAre(cells, secrets, next);
      if box.Valid() && next.Valid() { RotationReachesEveryCell(cells, secrets, box, next, w); }
      cells := tx;
      return Ok(count);
    }
  }

  // ---------- what a successful rotation leaves ----------

  function Outcome(cells: Cells, secrets: set<Cell>, prev: Box, next: Box, w: World): Cells
    requires AllReseal(cells, Moves(cells, secrets, next), prev, next, w)
  {
    Rotated(cells, Moves(cells, secrets, next), prev, next, w)
  }

  // Under differing key ids, whatever a selected cell read as under the old key it reads as under
  // the new one; what the new key already owned, and every cell not selected, is as it was.
  lemma PlaintextsSurvive(cells: Cells, secrets: set<Cell>, prev: Box, next: Box, w: World, c: Cell)
    requires Rotates(cells, secrets, prev, next, w) && c in cells && prev.keyID != next.keyID
    ensures var after := Outcome(cells, secrets, prev, next, w);
            && c in after
            && (Selected(cells, secrets, c) ==>
                  next.Owns(after[c]) && Selected(after, secrets, c) &&
                  (prev.Open(Aad(c), cells[c]).Ok? ==> next.Open(Aad(c), after[c]) == prev.Open(Aad(c), cells[c])))
            && (!Selected(cells, secrets, c) || next.Owns(cells[c]) ==> after[c] == cells[c])
  {
    if Selected(cells, secrets, c) && !next.Owns(cells[c]) {
      SealOpens(next, Aad(c), prev.Open(Aad(c), cells[c]).value, w.nonce(c));
    } else if Selected(cells, secrets, c) {
      OwnedByAnother(prev, next, Aad(c), cells[c]);
    }
  }

  // In general a selected cell reads the same afterwards exactly when the new key did not own it,
  // or already opened it to what the old key did.
  lemma PlaintextSurvivesExactly(cells: Cells, secrets: set<Cell>, prev: Box, next: Box, w: World, c: Cell)
    requires Rotates(cells, secrets, prev, next, w) && Selected(cells, secrets, c)
    ensures var after := Outcome(cells, secrets, prev, next, w);
            next.Open(Aad(c), after[c]) == prev.Open(Aad(c), cells[c]) <==>
            !next.Owns(cells[c]) || next.Open(Aad(c), cells[c]) == prev.Open(Aad(c), cells[c])
  {
    if !next.Owns(cells[c]) { SealOpens(next, Aad(c), prev.Open(Aad(c), cells[c]).value, w.nonce(c)); }
  }

  lemma OpenedIsOwned(prev: Box, next: Box, name: string, stored: string)
    requires next.Owns(stored) && prev.Open(name, stored).Ok?
    ensures prev.Owns(stored) && prev.keyID == next.keyID
  {
    assert stored[0] == ENC[0] && PLAIN[0] != ENC[0];
  }

  // Nothing readable is lost exactly when every selected cell that both keys take for their own
  // opens under both to one plaintext; keys with differing ids have no such cell.
  lemma NothingLostExactly(cells: Cells, secrets: set<Cell>, prev: Box, next: Box, w: World)
    requires Rotates(cells, secrets, prev, next, w)
    ensures var after := Outcome(cells, secrets, prev, next, w);
            (forall c :: Selected(cells, secrets, c) && prev.Open(Aad(c), cells[c]).Ok? ==>
               next.Open(Aad(c), after[c]) == prev.Open(Aad(c), cells[c])) <==>
            (forall c :: Selected(cells, secrets, c) && prev.Open(Aad(c), cells[c]).Ok? && prev.Owns(cells[c]) && next.Owns(cells[c]) ==>
               next.Open(Aad(c), cells[c]) == prev.Open(Aad(c), cells[c]))
    ensures prev.keyID != next.keyID ==> forall c :: c in cells ==> !(prev.Owns(cells[c]) && next.Owns(cells[c]))
  {
    var after := Outcome(cells, secrets, prev, next, w);
    forall c | Selected(cells, secrets, c) && prev.Open(Aad(c), cells[c]).Ok?
      ensures next.Open(Aad(c), after[c]) == prev.Open(Aad(c), cells[c]) <==>
              (prev.Owns(cells[c]) && next.Owns(cells[c]) ==> next.Open(Aad(c), cells[c]) == prev.Open(Aad(c), cells[c]))
    {
      PlaintextSurvivesExactly(cells, secrets, prev, next, w, c);
      if next.Owns(cells[c]) { OpenedIsOwned(prev, next, Aad(c), cells[c]); }
    }
  }

  // A second run finds nothing to move, whichever key the panel opened with.
  lemma SecondRunMovesNothing(cells: Cells, secrets: set<Cell>, prev: Box, next: Box, w: World, again: Box, w': World)
    requires Rotates(cells, secrets, prev, next, w)
    ensures var after := Outcome(cells, secrets, prev, next, w);
            Moves(after, secrets, next) == {} && Outcome(after, secrets, again, next, w') == after
  {
    var after := Outcome(cells, secrets, prev, next, w);
    forall c | c in cells && c in Moves(cells, secrets, next) ensures next.Owns(after[c]) {
      SealOpens(next, Aad(c), prev.Open(Aad(c), cells[c]).value, w.nonce(c));
    }
    assert Moves(after, secrets, next) == {};
  }

  // There and back: under the first key again, every selected cell reads as it did at the start.
  lemma ThereAndBack(cells: Cells, secrets: set<Cell>, prev: Box, next: Box, w: World, w': World, c: Cell)
    requires Rotates(cells, secrets, prev, next, w) && prev.keyID != next.keyID && Selected(cells, secrets, c)
    requires Rotates(Outcome(cells, secrets, prev, next, w), secrets, next, prev, w')
    requires prev.Open(Aad(c), cells[c]).Ok?
    ensures var back := Outcome(Outcome(cells, secrets, prev, next, w), secrets, next, prev, w');
            c in back && prev.Open(Aad(c), back[c]) == prev.Open(Aad(c), cells[c])
  {
    var there := Outcome(cells, secrets, prev, next, w);
    PlaintextsSurvive(cells, secrets, prev, next, w, c);
    PlaintextsSurvive(there, secrets, next, prev, w', c);
  }

  // The old key opens every selected cell exactly when nothing in the database stands in the way.
  lemma RotatesWhenEverythingOpens(cells: Cells, secrets: set<Cell>, prev: Box, next: Box, w: World)
    requires prev.Valid() && next.Valid() && next.Enabled()
    ensures Rotates(cells, secrets, prev, next, w) <==>
            forall c :: c in Moves(cells, secrets, next) ==> prev.Open(Aad(c), cells[c]).Ok? && w.nonce(c).Some? && c !in w.stuck
  {
    forall c | c in Moves(cells, secrets, next)
      ensures Resealed(prev, next, c, cells[c], w).Ok? <==>
              prev.Open(Aad(c), cells[c]).Ok? && w.nonce(c).Some? && c !in w.stuck
    {
      var plain := prev.Open(Aad(c), cells[c]);
      if plain.Ok? { SealOpens(next, Aad(c), plain.value, w.nonce(c)); }
    }
  }

  // ---------- when two keys share an id ----------

  function Marked(mark: char): Cipher {
    Cipher((nonce, name, value) => [mark] + value,
           (name, payload: string) => if payload != "" && payload[0] == mark then Some(payload[1..]) else None)
  }

  lemma MarkedOpens(mark: char, id: string)
    requires ':' !in id
    ensures Box(Some(Marked(mark)), id).Valid()
  {
    forall nonce, name, value: string ensures Marked(mark).open(name, Marked(mark).seal(nonce, name, value)) == Some(value) {
      assert ([mark] + value)[1..] == value;
    }
  }

  // Under one key id, what one key seals the other takes for its own and cannot open.
  lemma SharedId(mark: char, other: char, name: string, value: string, nonce: string)
    requires mark != other
    ensures var prev, next := Box(Some(Marked(mark)), "id"), Box(Some(Marked(other)), "id");
            var stored := prev.Seal(name, value, Some(nonce)).value;
            && prev.Seal(name, value, Some(nonce)).Ok? && stored != ""
            && prev.Open(name, stored) == Ok(value) && next.Owns(stored) && next.Open(name, stored).Err?
  {
    var prev, next := Box(Some(Marked(mark)), "id"), Box(Some(Marked(other)), "id");
    var stored := prev.Seal(name, value, Some(nonce)).value;
    MarkedOpens(mark, "id");
    SealOpens(prev, name, value, Some(nonce));
    EncParts("id", [mark] + value);
    CutAfter("id", [mark] + value);
    assert stored == ENC + "id" + ":" + ([mark] + value);
  }

  // Key ids are thirty-two bits of a hash. Two keys that share one, and a database holding a sealed
  // value and a clear one: the rotation reports one value moved and leaves the database half
  // rotated, each value open to one of the keys only.
  lemma SharedKeyIdHalfRotates(w: World)
    requires w.nonce(Relay("m")).Some? && Relay("m") !in w.stuck
    ensures exists prev, next: Box, cells ::
      Rotates(cells, {}, prev, next, w) && prev.keyID == next.keyID &&
      Skeleton("n") in cells && Relay("m") in cells && Moves(cells, {}, next) == {Relay("m")} &&
      var after := Outcome(cells, {}, prev, next, w);
      && prev.Open(Aad(Skeleton("n")), cells[Skeleton("n")]) == Ok("x") && prev.Open(Aad(Relay("m")), cells[Relay("m")]) == Ok("y")
      && prev.Open(Aad(Skeleton("n")), after[Skeleton("n")]) == Ok("x") && next.Open(Aad(Skeleton("n")), after[Skeleton("n")]).Err?
      && next.Open(Aad(Relay("m")), after[Relay("m")]) == Ok("y") && prev.Open(Aad(Relay("m")), after[Relay("m")]).Err?
  {
    var prev, next := Box(Some(Marked('0')), "id"), Box(Some(Marked('1')), "id");
    var c, e := Skeleton("n"), Relay("m");
    var nonce := w.nonce(e).value;
    MarkedOpens('0', "id");
    MarkedOpens('1', "id");
    SharedId('0', '1', Aad(c), "x", nonce);
    SharedId('1', '0', Aad(e), "y", nonce);
    var cells: Cells := map[c := prev.Seal(Aad(c), "x", Some(nonce)).value, e := PLAIN + "y"];
    OpensTheClear(prev, Aad(e), "y");
    OpensTheClear(next, Aad(e), "y");
    assert Moves(cells, {}, next) == {e};
    assert Resealed(prev, next, e, cells[e], w) == next.Seal(Aad(e), "y", Some(nonce));
    assert Rotates(cells, {}, prev, next, w);
  }

  // With nothing in the clear it moves nothing at all, reports success, and leaves a value only the
  // old key can read.
  lemma SharedKeyIdLosesAValue(w: World)
    ensures exists prev, next: Box, cells ::
      Rotates(cells, {}, prev, next, w) && prev.keyID == next.keyID && Skeleton("n") in cells &&
      Moves(cells, {}, next) == {} &&
      var stored := Outcome(cells, {}, prev, next, w)[Skeleton("n")];
      prev.Open(Aad(Skeleton("n")), stored) == Ok("x") && next.Open(Aad(Skeleton("n")), stored).Err?
  {
    var prev, next := Box(Some(Marked('0')), "id"), Box(Some(Marked('1')), "id");
    var c := Skeleton("n");
    MarkedOpens('0', "id");
    MarkedOpens('1', "id");
    SharedId('0', '1', Aad(c), "x", "");
    var cells: Cells := map[c := prev.Seal(Aad(c), "x", Some("")).value];
    assert Moves(cells, {}, next) == {};
    assert Rotates(cells, {}, prev, next, w);
    assert Outcome(cells, {}, prev, next, w)[c] == cells[c];
  }
}
