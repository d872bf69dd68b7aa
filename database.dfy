/** `DatabaseManager` (src/utils/processing/database.py): insertion into one
    jurisdiction's node table with the duplicate policy (ignore, or re-insert
    under a `-v_N` version suffix), ordered batch insertion with per-node
    fallback, and the read queries. The SQL table is a map from id to row. */
module Database {
  import opened Wrappers
  import opened Strings
  import opened Nodes

  /** One jurisdiction's table: primary key `id` to row. */
  type Table = map<string, Node>

  /** Every row is stored under its own id. */
  predicate KeysAreIds(t: Table) {
    forall k :: k in t ==> t[k].id == k
  }

  /** What `util.pydantic_insert` raises: `UniqueViolation` on a primary-key
      collision, `Rejected` for any other failure of a row (the table's other
      constraints and the row validation, which are not part of this model). */
  datatype InsertFailure = UniqueViolation | Rejected

  /** What the manager's operations raise. `Raised` is a failure of
      `pydantic_insert` that escapes unwrapped; `InsertionFailed` and
      `VersionsExhausted` are the two `DatabaseError`s; `InvalidBatchSize` is the
      `ValueError` of `range` with a zero step. */
  datatype DatabaseFailure = Raised(failure: InsertFailure) | InsertionFailed | VersionsExhausted | InvalidBatchSize

  /** The result of an operation together with the table it leaves behind. */
  datatype Outcome<R> = Outcome(result: Result<R, DatabaseFailure>, table: Table)

  // ---------------------------------------------------------------------------
  // util.pydantic_insert

  /** One multi-row `INSERT`, taken to be atomic: the rows go in, in order,
      unless one of them is rejected or collides with a stored row or an earlier
      row of the same statement; then nothing is inserted. */
  function InsertRows(t: Table, rows: seq<Node>, accepts: Node -> bool): (r: Result<Table, InsertFailure>)
    decreases |rows|
  {
    if rows == [] then Success(t)
    else if !accepts(rows[0]) then Failure(Rejected)
    else if rows[0].id in t then Failure(UniqueViolation)
    else InsertRows(t[rows[0].id := rows[0]], rows[1..], accepts)
  }

  /** A one-row insert. */
  lemma InsertOne(t: Table, n: Node, accepts: Node -> bool)
    ensures InsertRows(t, [n], accepts)
         == if !accepts(n) then Failure(Rejected) else if n.id in t then Failure(UniqueViolation) else Success(t[n.id := n])
  {
    assert [n][1..] == [];
  }

  /** A successful insert adds exactly the given rows under their ids and keeps
      every stored row. */
  lemma {:induction false} InsertRowsAdds(t: Table, rows: seq<Node>, accepts: Node -> bool)
    requires InsertRows(t, rows, accepts).Success?
    ensures forall i :: 0 <= i < |rows| ==> rows[i].id !in t && accepts(rows[i])
    ensures forall k :: k in t ==> k in InsertRows(t, rows, accepts).value && InsertRows(t, rows, accepts).value[k] == t[k]
    ensures forall k :: k in InsertRows(t, rows, accepts).value ==> k in t || exists i :: 0 <= i < |rows| && rows[i].id == k
    ensures KeysAreIds(t) ==> KeysAreIds(InsertRows(t, rows, accepts).value)
    decreases |rows|
  {
    if rows != [] {
      var t1 := t[rows[0].id := rows[0]];
      InsertRowsAdds(t1, rows[1..], accepts);
      assert forall i :: 1 <= i < |rows| ==> rows[i] == rows[1..][i - 1];
      var t2 := InsertRows(t, rows, accepts).value;
      forall k | k in t2
        ensures k in t || exists i :: 0 <= i < |rows| && rows[i].id == k
      {
        if k !in t1 {
          var i :| 0 <= i < |rows[1..]| && rows[1..][i].id == k;
          assert rows[i + 1].id == k;
        } else if k !in t {
          assert rows[0].id == k;
        }
      }
    }
  }

  // ---------------------------------------------------------------------------
  // Version suffixes

  const VersionTag := "-v_"
  const DuplicatedFromKey := "duplicated_from_node_id"

  /** `base_id[:base_id.find("-v_")]`, or the id itself when it holds no tag. */
  function BaseId(id: string): (b: string)
    ensures |b| <= |id| && b == id[..|b|]
  {
    match Find(id, VersionTag)
    case Some(k) => id[..k]
    case None => id
  }

  /** The base holds no version tag. */
  lemma BaseIdHasNoTag(id: string)
    ensures !Contains(BaseId(id), VersionTag)
  {
    var b := BaseId(id);
    forall p: nat | p <= |b|
      ensures !OccursAt(b, VersionTag, p)
    {
      if OccursAt(b, VersionTag, p) {
        assert b[p..p + 3] == id[p..p + 3];
        assert OccursAt(id, VersionTag, p);
      }
    }
  }

  /** `f"{base_id}-v_{i}"` for a version number `i` of the probe. */
  function Candidate(id: string, i: nat): string
    requires i < 10
  {
    BaseId(id) + VersionTag + [DigitChar(i)]
  }

  /** A versioned id holds the tag exactly once, right after the base, and ends
      in its version digit; versioning it again starts from the same base, so
      suffixes never stack. */
  lemma CandidateShape(id: string, i: nat)
    requires 2 <= i < 10
    ensures forall p: nat :: OccursAt(Candidate(id, i), VersionTag, p) <==> p == |BaseId(id)|
    ensures Candidate(id, i)[|Candidate(id, i)| - 1] == DigitChar(i)
    ensures BaseId(Candidate(id, i)) == BaseId(id)
  {
    var b := BaseId(id);
    var c := Candidate(id, i);
    BaseIdHasNoTag(id);
    assert c[|b|..|b| + 3] == VersionTag;
    assert c[|b|] == '-' && c[|b| + 1] == 'v' && c[|b| + 2] == '_' && c[|b| + 3] == DigitChar(i);
    forall p: nat | OccursAt(c, VersionTag, p)
      ensures p == |b|
    {
      if p + 3 <= |b| {
        assert c[p..p + 3] == b[p..p + 3];
        assert OccursAt(b, VersionTag, p);
      } else {
        assert c[p] == '-' && c[p + 1] == 'v' && c[p + 2] == '_';
      }
    }
    assert OccursAt(c, VersionTag, |b|);
    var f := Find(c, VersionTag);
    assert f.Some? && OccursAt(c, VersionTag, f.value);
    assert f == Some(|b|);
    assert c[..|b|] == b;
  }

  /** The node under a versioned id: the id replaced, and the metadata tagged
      with the id it was first submitted under. */
  function Tagged(node: Node): (n: Node)
    ensures n.coreMetadata.Some? && DuplicatedFromKey in n.coreMetadata.value
    ensures n.coreMetadata.value[DuplicatedFromKey] == node.id
    ensures node.coreMetadata.Some? ==> forall k :: k in node.coreMetadata.value && k != DuplicatedFromKey ==>
      k in n.coreMetadata.value && n.coreMetadata.value[k] == node.coreMetadata.value[k]
    ensures n.(coreMetadata := node.coreMetadata) == node
  {
    node.(coreMetadata := Some(node.coreMetadata.GetOr(map[])[DuplicatedFromKey := node.id]))
  }

  function VersionedCopy(node: Node, i: nat): Node
    requires i < 10
  {
    Tagged(node).(id := Candidate(node.id, i))
  }

  /** The probe loop from version `i` on: the first candidate that inserts
      wins; a collision moves on; any other failure escapes as it is. */
  function TryVersions(t: Table, node: Node, i: nat, accepts: Node -> bool): Outcome<Node>
    requires 2 <= i <= 10
    decreases 10 - i
  {
    if i == 10 then Outcome(Failure(VersionsExhausted), t)
    else
      var candidate := VersionedCopy(node, i);
      match InsertRows(t, [candidate], accepts)
      case Success(t1) => Outcome(Success(candidate), t1)
      case Failure(UniqueViolation) => TryVersions(t, node, i + 1, accepts)
      case Failure(Rejected) => Outcome(Failure(Raised(Rejected)), t)
  }

  /** `_handle_duplicate_with_version`. */
  function VersionOutcome(t: Table, node: Node, accepts: Node -> bool): Outcome<Node> {
    TryVersions(t, node, 2, accepts)
  }

  /** The candidate for version `j` is free in the table. */
  predicate FreeVersion(t: Table, id: string, j: nat)
    requires j < 10
  {
    Candidate(id, j) !in t
  }

  /** With every candidate accepted, the node goes in under the least free
      version in `i..9`, adding exactly that one row; when all are taken the
      probe fails with the table unchanged. */
  lemma {:induction false} TryVersionsPicksLeastFree(t: Table, node: Node, i: nat, accepts: Node -> bool)
    requires 2 <= i <= 10
    requires forall j :: i <= j < 10 ==> accepts(VersionedCopy(node, j))
    ensures var o := TryVersions(t, node, i, accepts);
      o.result.Success? ==>
        (exists j :: i <= j < 10 && o.result.value == VersionedCopy(node, j) &&
           FreeVersion(t, node.id, j) && (forall m :: i <= m < j ==> !FreeVersion(t, node.id, m)) &&
           o.table == t[Candidate(node.id, j) := VersionedCopy(node, j)])
    ensures var o := TryVersions(t, node, i, accepts);
      o.result.Failure? ==>
        (o.result.error == VersionsExhausted && o.table == t &&
         forall j :: i <= j < 10 ==> !FreeVersion(t, node.id, j))
    decreases 10 - i
  {
    if i < 10 {
      TryVersionsPicksLeastFree(t, node, i + 1, accepts);
      TryVersionsStep(t, node, i, accepts);
      var o := TryVersions(t, node, i, accepts);
      if Candidate(node.id, i) in t {
        assert !FreeVersion(t, node.id, i);
        if o.result.Success? {
          var j :| i + 1 <= j < 10 && o.result.value == VersionedCopy(node, j)
            && FreeVersion(t, node.id, j) && (forall m :: i + 1 <= m < j ==> !FreeVersion(t, node.id, m))
            && o.table == t[Candidate(node.id, j) := VersionedCopy(node, j)];
          assert forall m :: i <= m < j ==> !FreeVersion(t, node.id, m);
        } else {
          assert o == TryVersions(t, node, i + 1, accepts);
          forall j | i <= j < 10
            ensures !FreeVersion(t, node.id, j)
          {
            if j > i {
              assert i + 1 <= j;
            }
          }
        }
      } else {
        assert FreeVersion(t, node.id, i);
        assert o.result.value == VersionedCopy(node, i);
      }
    }
  }

  /** One probe of an accepted candidate: a taken id moves on to the next
      version, a free one inserts the candidate. */
  lemma TryVersionsStep(t: Table, node: Node, i: nat, accepts: Node -> bool)
    requires 2 <= i < 10 && accepts(VersionedCopy(node, i))
    ensures TryVersions(t, node, i, accepts) ==
      if Candidate(node.id, i) in t then TryVersions(t, node, i + 1, accepts)
      else Outcome(Success(VersionedCopy(node, i)), t[Candidate(node.id, i) := VersionedCopy(node, i)])
  {
    InsertOne(t, VersionedCopy(node, i), accepts);
  }

  // ---------------------------------------------------------------------------
  // insert_node

  /** `insert_node`: a failure of the first attempt other than a collision is
      wrapped in a `DatabaseError`; a collision is ignored or versioned. */
  function InsertOutcome(t: Table, node: Node, ignoreDuplicate: bool, accepts: Node -> bool): Outcome<Node> {
    match InsertRows(t, [node], accepts)
    case Success(t1) => Outcome(Success(node), t1)
    case Failure(UniqueViolation) =>
      if ignoreDuplicate then Outcome(Success(node), t) else VersionOutcome(t, node, accepts)
    case Failure(Rejected) => Outcome(Failure(InsertionFailed), t)
  }

  /** A node whose id is absent is inserted as it is: exactly that row is added
      and the node comes back unchanged. */
  lemma InsertFresh(t: Table, node: Node, ignoreDuplicate: bool, accepts: Node -> bool)
    requires node.id !in t && accepts(node)
    ensures InsertOutcome(t, node, ignoreDuplicate, accepts) == Outcome(Success(node), t[node.id := node])
  {
    InsertOne(t, node, accepts);
  }

  /** Every insert leaves the table as it was or adds one row under the id of
      the node it returns, which is the submitted node or a versioned copy of it;
      a failure changes nothing, and ignoring keeps the node as submitted. */
  lemma InsertOutcomeShape(t: Table, node: Node, ignoreDuplicate: bool, accepts: Node -> bool)
    ensures var o := InsertOutcome(t, node, ignoreDuplicate, accepts);
      && (o.result.Failure? ==> o.table == t)
      && (o.result.Success? ==>
           && (o.result.value == node || exists i :: 2 <= i < 10 && o.result.value == VersionedCopy(node, i))
           && (o.table == t || (o.result.value.id !in t && o.table == t[o.result.value.id := o.result.value])))
      && (ignoreDuplicate && o.result.Success? ==> o.result.value == node)
      && (KeysAreIds(t) ==> KeysAreIds(o.table))
  {
    var o := InsertOutcome(t, node, ignoreDuplicate, accepts);
    InsertOne(t, node, accepts);
    if InsertRows(t, [node], accepts) == Failure(UniqueViolation) && !ignoreDuplicate {
      TryVersionsShape(t, node, 2, accepts);
    }
  }

  lemma {:induction false} TryVersionsShape(t: Table, node: Node, i: nat, accepts: Node -> bool)
    requires 2 <= i <= 10
    ensures var o := TryVersions(t, node, i, accepts);
      && (o.result.Failure? ==> o.table == t)
      && (o.result.Success? ==>
            exists j :: i <= j < 10 && o.result.value == VersionedCopy(node, j) &&
              o.result.value.id !in t && o.table == t[o.result.value.id := o.result.value])
    decreases 10 - i
  {
    if i < 10 {
      TryVersionsShape(t, node, i + 1, accepts);
      InsertOne(t, VersionedCopy(node, i), accepts);
    }
  }

  /** Under the ignore policy inserting a node twice leaves the table as the
      first insert left it. */
  lemma IgnoreIsIdempotent(t: Table, node: Node, accepts: Node -> bool)
    ensures var o := InsertOutcome(t, node, true, accepts);
      InsertOutcome(o.table, node, true, accepts).table == o.table
    ensures node.id in t && accepts(node) ==> InsertOutcome(t, node, true, accepts) == Outcome(Success(node), t)
  {
    InsertOne(t, node, accepts);
    InsertOne(InsertOutcome(t, node, true, accepts).table, node, accepts);
  }

  /** Three inserts of equal nodes under the version policy, into a table
      where their id and its first two versions are free: the first keeps its
      id, the second gets `-v_2` and the third `-v_3`. Nodes are values here, so
      this is three distinct but equal node objects in the source. */
  lemma RepeatedCollisionsVersion(t: Table, node: Node, accepts: Node -> bool)
    requires forall n: Node :: accepts(n)
    requires node.id !in t && Candidate(node.id, 2) !in t && Candidate(node.id, 3) !in t
    requires node.id != Candidate(node.id, 2) && node.id != Candidate(node.id, 3)
    ensures var o1 := InsertOutcome(t, node, false, accepts);
      var o2 := InsertOutcome(o1.table, node, false, accepts);
      var o3 := InsertOutcome(o2.table, node, false, accepts);
      && o1.result == Success(node)
      && o2.result == Success(VersionedCopy(node, 2))
      && o3.result == Success(VersionedCopy(node, 3))
      && o3.table == t[node.id := node][Candidate(node.id, 2) := VersionedCopy(node, 2)][Candidate(node.id, 3) := VersionedCopy(node, 3)]
  {
    var t1 := t[node.id := node];
    InsertOne(t, node, accepts);
    InsertOne(t1, node, accepts);
    InsertOne(t1, VersionedCopy(node, 2), accepts);
    assert InsertOutcome(t, node, false, accepts) == Outcome(Success(node), t1);
    var t2 := t1[Candidate(node.id, 2) := VersionedCopy(node, 2)];
    assert TryVersions(t1, node, 2, accepts) == Outcome(Success(VersionedCopy(node, 2)), t2);
    assert InsertOutcome(t1, node, false, accepts) == Outcome(Success(VersionedCopy(node, 2)), t2);
    var t3 := t2[Candidate(node.id, 3) := VersionedCopy(node, 3)];
    InsertOne(t2, node, accepts);
    InsertOne(t2, VersionedCopy(node, 2), accepts);
    InsertOne(t2, VersionedCopy(node, 3), accepts);
    assert Candidate(node.id, 2) != Candidate(node.id, 3) by {
      assert Candidate(node.id, 2)[|Candidate(node.id, 2)| - 1] != Candidate(node.id, 3)[|Candidate(node.id, 3)| - 1];
    }
    assert TryVersions(t2, node, 3, accepts) == Outcome(Success(VersionedCopy(node, 3)), t3);
    assert InsertOutcome(t2, node, false, accepts) == Outcome(Success(VersionedCopy(node, 3)), t3);
  }

  // ---------------------------------------------------------------------------
  // batch_insert

  /** The nodes inserted so far followed by what the rest of the run gives. */
  function Prepend(xs: seq<Node>, o: Outcome<seq<Node>>): Outcome<seq<Node>> {
    if o.result.Success? then Outcome(Success(xs + o.result.value), o.table) else o
  }

  lemma PrependAssociates(xs: seq<Node>, ys: seq<Node>, o: Outcome<seq<Node>>)
    ensures Prepend(xs, Prepend(ys, o)) == Prepend(xs + ys, o)
    ensures Prepend([], o) == o
  {
    if o.result.Success? {
      assert xs + (ys + o.result.value) == xs + ys + o.result.value;
      assert [] + o.result.value == o.result.value;
    }
  }

  /** `insert_node` on each node in turn, as the fallback loop does: a failing
      node is skipped under `ignore_duplicates` and ends the run otherwise. */
  function Sequential(t: Table, nodes: seq<Node>, ignore: bool, accepts: Node -> bool): Outcome<seq<Node>>
    decreases |nodes|
  {
    if nodes == [] then Outcome(Success([]), t)
    else
      var o := InsertOutcome(t, nodes[0], ignore, accepts);
      if o.result.Success? then Prepend([o.result.value], Sequential(o.table, nodes[1..], ignore, accepts))
      else if ignore then Sequential(o.table, nodes[1..], ignore, accepts)
      else Outcome(Failure(o.result.error), o.table)
  }

  /** One chunk: the whole chunk in one statement, or node by node when that
      statement fails for any reason. */
  function ChunkAttempt(t: Table, chunk: seq<Node>, ignore: bool, accepts: Node -> bool): Outcome<seq<Node>> {
    match InsertRows(t, chunk, accepts)
    case Success(t1) => Outcome(Success(chunk), t1)
    case Failure(_) => Sequential(t, chunk, ignore, accepts)
  }

  function ChunkLength(n: nat, size: nat): (k: nat)
    requires size > 0
    ensures k <= n && (n > 0 ==> k > 0)
  {
    if size < n then size else n
  }

  /** What the rest of the run gives after one step has produced `o`. */
  function ThenChunks(o: Outcome<seq<Node>>, rest: seq<Node>, size: nat, ignore: bool, accepts: Node -> bool): Outcome<seq<Node>>
    requires size > 0
    decreases |rest|, 1
  {
    if o.result.Success? then Prepend(o.result.value, Chunked(o.table, rest, size, ignore, accepts)) else o
  }

  /** The chunk loop `for i in range(0, len(nodes), batch_size)`. */
  function Chunked(t: Table, nodes: seq<Node>, size: nat, ignore: bool, accepts: Node -> bool): Outcome<seq<Node>>
    requires size > 0
    decreases |nodes|, 0
  {
    if nodes == [] then Outcome(Success([]), t)
    else
      var k := ChunkLength(|nodes|, size);
      ThenChunks(ChunkAttempt(t, nodes[..k], ignore, accepts), nodes[k..], size, ignore, accepts)
  }

  /** `batch_insert`. */
  function BatchOutcome(t: Table, nodes: seq<Node>, batchSize: int, ignore: bool, accepts: Node -> bool): Outcome<seq<Node>> {
    if nodes == [] then Outcome(Success([]), t)
    else if batchSize == 0 then Outcome(Failure(InvalidBatchSize), t)
    else if batchSize < 0 then Outcome(Success([]), t)
    else Chunked(t, nodes, batchSize, ignore, accepts)
  }

  lemma ThenChunksPrepend(xs: seq<Node>, o: Outcome<seq<Node>>, rest: seq<Node>, size: nat, ignore: bool, accepts: Node -> bool)
    requires size > 0
    ensures ThenChunks(Prepend(xs, o), rest, size, ignore, accepts) == Prepend(xs, ThenChunks(o, rest, size, ignore, accepts))
  {
    if o.result.Success? {
      PrependAssociates(xs, o.result.value, Chunked(o.table, rest, size, ignore, accepts));
    }
  }

  /** A statement that inserts all its rows gives what inserting them one by
      one gives. */
  lemma {:induction false} InsertRowsIsSequential(t: Table, rows: seq<Node>, ignore: bool, accepts: Node -> bool)
    requires InsertRows(t, rows, accepts).Success?
    ensures Sequential(t, rows, ignore, accepts) == Outcome(Success(rows), InsertRows(t, rows, accepts).value)
    decreases |rows|
  {
    if rows != [] {
      InsertRowsIsSequential(t[rows[0].id := rows[0]], rows[1..], ignore, accepts);
      InsertOne(t, rows[0], accepts);
      assert [rows[0]] + rows[1..] == rows;
    }
  }

  /** Running over `a + b` is running over `a` and then, if that did not fail,
      over `b` from the table `a` left. */
  lemma {:induction false} SequentialAppend(t: Table, a: seq<Node>, b: seq<Node>, ignore: bool, accepts: Node -> bool)
    ensures Sequential(t, a + b, ignore, accepts)
         == (var o := Sequential(t, a, ignore, accepts);
             if o.result.Success? then Prepend(o.result.value, Sequential(o.table, b, ignore, accepts)) else o)
    decreases |a|
  {
    if a == [] {
      assert a + b == b;
      PrependAssociates([], [], Sequential(t, b, ignore, accepts));
    } else {
      assert (a + b)[0] == a[0] && (a + b)[1..] == a[1..] + b;
      SequentialAppend(InsertOutcome(t, a[0], ignore, accepts).table, a[1..], b, ignore, accepts);
      var o1 := InsertOutcome(t, a[0], ignore, accepts);
      if o1.result.Success? {
        var rest := Sequential(o1.table, a[1..], ignore, accepts);
        if rest.result.Success? {
          PrependAssociates([o1.result.value], rest.result.value, Sequential(rest.table, b, ignore, accepts));
        }
      }
    }
  }

  /** Batching is invisible: for every positive batch size the outcome, result
      and table both, is the one of inserting the nodes one by one in order. */
  lemma {:induction false} ChunkingIsSequential(t: Table, nodes: seq<Node>, size: nat, ignore: bool, accepts: Node -> bool)
    requires size > 0
    ensures Chunked(t, nodes, size, ignore, accepts) == Sequential(t, nodes, ignore, accepts)
    decreases |nodes|
  {
    if nodes != [] {
      var k := ChunkLength(|nodes|, size);
      var chunk, rest := nodes[..k], nodes[k..];
      assert nodes == chunk + rest;
      if InsertRows(t, chunk, accepts).Success? {
        InsertRowsIsSequential(t, chunk, ignore, accepts);
      }
      var o := ChunkAttempt(t, chunk, ignore, accepts);
      assert o == Sequential(t, chunk, ignore, accepts);
      if o.result.Success? {
        ChunkingIsSequential(o.table, rest, size, ignore, accepts);
      }
      SequentialAppend(t, chunk, rest, ignore, accepts);
    }
  }

  /** `xs` keeps some of the elements of `ys`, in their order. */
  predicate IsSubsequence(xs: seq<Node>, ys: seq<Node>)
    decreases |ys|
  {
    if xs == [] then true
    else if ys == [] then false
    else (xs[0] == ys[0] && IsSubsequence(xs[1..], ys[1..])) || IsSubsequence(xs, ys[1..])
  }

  /** `r` is `n` itself or a versioned copy of it. */
  predicate IsCopyOf(r: Node, n: Node) {
    r == n || exists i :: 2 <= i < 10 && r == VersionedCopy(n, i)
  }

  lemma {:induction false} SubsequencePrepend(x: Node, xs: seq<Node>, ys: seq<Node>)
    requires IsSubsequence(xs, ys)
    ensures IsSubsequence([x] + xs, [x] + ys)
  {
    assert ([x] + xs)[1..] == xs && ([x] + ys)[1..] == ys;
  }

  lemma {:induction false} SubsequenceSkip(xs: seq<Node>, y: Node, ys: seq<Node>)
    requires IsSubsequence(xs, ys)
    ensures IsSubsequence(xs, [y] + ys)
  {
    assert ([y] + ys)[1..] == ys;
  }

  /** Under the ignore policy the run never fails, returns some of the nodes
      unchanged and in input order, and keeps the table keyed by id. */
  lemma {:induction false} SequentialIgnoring(t: Table, nodes: seq<Node>, accepts: Node -> bool)
    ensures Sequential(t, nodes, true, accepts).result.Success?
    ensures IsSubsequence(Sequential(t, nodes, true, accepts).result.value, nodes)
    ensures KeysAreIds(t) ==> KeysAreIds(Sequential(t, nodes, true, accepts).table)
    decreases |nodes|
  {
    if nodes != [] {
      var o := InsertOutcome(t, nodes[0], true, accepts);
      InsertOutcomeShape(t, nodes[0], true, accepts);
      SequentialIgnoring(o.table, nodes[1..], accepts);
      var rest := Sequential(o.table, nodes[1..], true, accepts).result.value;
      assert nodes == [nodes[0]] + nodes[1..];
      if o.result.Success? {
        SubsequencePrepend(nodes[0], rest, nodes[1..]);
      } else {
        SubsequenceSkip(rest, nodes[0], nodes[1..]);
      }
    }
  }

  /** Without the ignore policy a run that succeeds has inserted every node, in
      order, each as submitted or as a versioned copy; the table stays keyed by
      id either way. */
  lemma {:induction false} SequentialStrict(t: Table, nodes: seq<Node>, accepts: Node -> bool)
    ensures var o := Sequential(t, nodes, false, accepts);
      o.result.Success? ==> |o.result.value| == |nodes| && forall i :: 0 <= i < |nodes| ==> IsCopyOf(o.result.value[i], nodes[i])
    ensures KeysAreIds(t) ==> KeysAreIds(Sequential(t, nodes, false, accepts).table)
    decreases |nodes|
  {
    if nodes != [] {
      var o := InsertOutcome(t, nodes[0], false, accepts);
      InsertOutcomeShape(t, nodes[0], false, accepts);
      SequentialStrict(o.table, nodes[1..], accepts);
    }
  }

  /** `batch_insert`: `[]` for no nodes; a `ValueError` for a zero batch size;
      otherwise, for a positive size, the outcome of one-by-one insertion, which
      under `ignore_duplicates` never fails and returns some of the nodes in
      input order, and without it returns, on success, every node in input
      order. */
  lemma BatchOutcomeMeaning(t: Table, nodes: seq<Node>, batchSize: int, ignore: bool, accepts: Node -> bool)
    ensures nodes == [] ==> BatchOutcome(t, nodes, batchSize, ignore, accepts) == Outcome(Success([]), t)
    ensures nodes != [] && batchSize == 0 ==> BatchOutcome(t, nodes, batchSize, ignore, accepts) == Outcome(Failure(InvalidBatchSize), t)
    ensures batchSize > 0 ==> BatchOutcome(t, nodes, batchSize, ignore, accepts) == Sequential(t, nodes, ignore, accepts)
    ensures batchSize > 0 && ignore ==>
      BatchOutcome(t, nodes, batchSize, ignore, accepts).result.Success?
      && IsSubsequence(BatchOutcome(t, nodes, batchSize, ignore, accepts).result.value, nodes)
    ensures batchSize > 0 && !ignore && BatchOutcome(t, nodes, batchSize, ignore, accepts).result.Success? ==>
      var r := BatchOutcome(t, nodes, batchSize, ignore, accepts).result.value;
      |r| == |nodes| && forall i :: 0 <= i < |nodes| ==> IsCopyOf(r[i], nodes[i])
  {
    if batchSize > 0 && nodes != [] {
      ChunkingIsSequential(t, nodes, batchSize, ignore, accepts);
    }
    if batchSize > 0 {
      if ignore { SequentialIgnoring(t, nodes, accepts); } else { SequentialStrict(t, nodes, accepts); }
    }
  }

  lemma BatchKeepsKeys(t: Table, nodes: seq<Node>, batchSize: int, ignore: bool, accepts: Node -> bool)
    requires KeysAreIds(t)
    ensures KeysAreIds(BatchOutcome(t, nodes, batchSize, ignore, accepts).table)
  {
    if batchSize > 0 && nodes != [] {
      ChunkingIsSequential(t, nodes, batchSize, ignore, accepts);
      if ignore { SequentialIgnoring(t, nodes, accepts); } else { SequentialStrict(t, nodes, accepts); }
    }
  }

  // ---------------------------------------------------------------------------
  // get_children: WHERE parent = ... [AND node_type = ...] ORDER BY id

  predicate IsLeast(m: string, ids: set<string>) {
    m in ids && forall o :: o in ids ==> o == m || LexLess(m, o)
  }

  lemma {:induction false} LeastExists(ids: set<string>)
    requires ids != {}
    ensures exists m :: IsLeast(m, ids)
    decreases |ids|
  {
    var x :| x in ids;
    var rest := ids - {x};
    if rest == {} {
      assert ids == {x};
      assert IsLeast(x, ids);
    } else {
      LeastExists(rest);
      var m :| IsLeast(m, rest);
      if LexLess(x, m) {
        forall o | o in ids
          ensures o == x || LexLess(x, o)
        {
          if o != x && o != m { LexLessTransitive(x, m, o); }
        }
        assert IsLeast(x, ids);
      } else {
        LexLessTotal(x, m);
        assert IsLeast(m, ids);
      }
    }
  }

  lemma LeastUnique(ids: set<string>)
    ensures forall a, b :: IsLeast(a, ids) && IsLeast(b, ids) ==> a == b
  {
    forall a, b | IsLeast(a, ids) && IsLeast(b, ids)
      ensures a == b
    {
      if a != b {
        LexLessAsymmetric(a, b);
      }
    }
  }

  /** The ids listed in ascending code-point order. */
  function SortedIds(ids: set<string>): (r: seq<string>)
    ensures |r| == |ids|
    ensures forall x :: x in ids <==> x in r
    ensures forall i, j :: 0 <= i < j < |r| ==> LexLess(r[i], r[j])
    decreases |ids|
  {
    if ids == {} then []
    else
      LeastExists(ids);
      LeastUnique(ids);
      var m :| IsLeast(m, ids);
      [m] + SortedIds(ids - {m})
  }

  /** `if node_type:` — a missing or empty type means no type filter. */
  predicate MatchesChild(n: Node, parentId: string, nodeType: Option<string>) {
    n.parent == Some(parentId) && (nodeType.None? || nodeType.value == "" || n.nodeType == nodeType.value)
  }

  function ChildIds(t: Table, parentId: string, nodeType: Option<string>): set<string> {
    set k | k in t && MatchesChild(t[k], parentId, nodeType)
  }

  /** The sorted child ids are exactly the stored ids of the matching rows. */
  lemma ChildIdsSorted(t: Table, parentId: string, nodeType: Option<string>)
    ensures var ids := SortedIds(ChildIds(t, parentId, nodeType));
      && (forall i :: 0 <= i < |ids| ==> ids[i] in t && MatchesChild(t[ids[i]], parentId, nodeType))
      && (forall k :: k in t && MatchesChild(t[k], parentId, nodeType) ==> k in ids)
  {
    var matching := ChildIds(t, parentId, nodeType);
    var ids := SortedIds(matching);
    assert forall i :: 0 <= i < |ids| ==> ids[i] in ids;
  }

  /** The rows under the sorted child ids are the stored matching rows, all
      of them, in ascending id order. */
  lemma ChildRowsMeaning(t: Table, parentId: string, nodeType: Option<string>)
    requires KeysAreIds(t)
    ensures var ids := SortedIds(ChildIds(t, parentId, nodeType));
      (forall i :: 0 <= i < |ids| ==> ids[i] in t) &&
      var children := Rows(t, ids);
      && (forall i :: 0 <= i < |children| ==>
            children[i].id in t && t[children[i].id] == children[i] && MatchesChild(children[i], parentId, nodeType))
      && (forall k :: k in t && MatchesChild(t[k], parentId, nodeType) ==>
            exists i :: 0 <= i < |children| && children[i].id == k)
      && (forall i, j :: 0 <= i < j < |children| ==> LexLess(children[i].id, children[j].id))
  {
    ChildIdsSorted(t, parentId, nodeType);
    var ids := SortedIds(ChildIds(t, parentId, nodeType));
    var children := Rows(t, ids);
    forall i | 0 <= i < |children|
      ensures children[i].id == ids[i]
    {
      assert children[i] == t[ids[i]];
    }
  }

  /** The rows stored under the given ids, in the order of the ids. */
  function Rows(t: Table, ids: seq<string>): (r: seq<Node>)
    requires forall i :: 0 <= i < |ids| ==> ids[i] in t
    ensures |r| == |ids| && forall i :: 0 <= i < |ids| ==> r[i] == t[ids[i]]
    ensures KeysAreIds(t) ==> forall k :: k in ids ==> exists i :: 0 <= i < |r| && r[i].id == k
  {
    seq(|ids|, i requires 0 <= i < |ids| => t[ids[i]])
  }

  // ---------------------------------------------------------------------------
  // get_stats

  /** `total_nodes`, and the `GROUP BY` counts of node types and of the statuses
      that are not null. */
  datatype Stats = Stats(totalNodes: nat, byType: map<string, nat>, byStatus: map<string, nat>)

  /** The column a `GROUP BY` reads: `None` stands for SQL `NULL`, which the
      `IS NOT NULL` filter drops. */
  type Label = Node -> Option<string>

  function TypeOf(n: Node): Option<string> { Some(n.nodeType) }
  function StatusOf(n: Node): Option<string> { n.status }

  /** The ids of the rows whose column holds `g`. */
  function Members(t: Table, col: Label, g: string): set<string> {
    set k | k in t && col(t[k]) == Some(g)
  }

  /** The ids of the rows whose column is not null. */
  function Labelled(t: Table, col: Label): set<string> {
    set k | k in t && col(t[k]).Some?
  }

  /** `SELECT col, COUNT(*) … WHERE col IS NOT NULL GROUP BY col`, as a dictionary. */
  function GroupCounts(t: Table, col: Label): map<string, nat> {
    map g | g in (set k | k in t && col(t[k]).Some? :: col(t[k]).value) :: |Members(t, col, g)|
  }

  function StatsOf(t: Table): Stats {
    Stats(|t|, GroupCounts(t, TypeOf), GroupCounts(t, StatusOf))
  }

  lemma SubsetCard(a: set<string>, b: set<string>)
    requires a <= b
    ensures |a| <= |b|
  {
    assert b == a + (b - a);
  }

  /** Some key of a non-empty set, the same one each time. */
  ghost function Pick(keys: set<string>): (x: string)
    requires keys != {}
    ensures x in keys
  {
    var x :| x in keys; x
  }

  /** The sum of the counts under `keys`. */
  ghost function CountSum(m: map<string, nat>, keys: set<string>): nat
    requires keys <= m.Keys
    decreases keys
  {
    if keys == {} then 0 else m[Pick(keys)] + CountSum(m, keys - {Pick(keys)})
  }

  /** The ids of the rows whose column holds one of `keys`. */
  function MembersOfAny(t: Table, col: Label, keys: set<string>): set<string> {
    set k | k in t && col(t[k]).Some? && col(t[k]).value in keys
  }

  /** Groups are disjoint, so the counts under `keys` add up to the rows in
      any of those groups. */
  lemma {:induction false} CountSumIsUnion(t: Table, col: Label, keys: set<string>)
    requires keys <= GroupCounts(t, col).Keys
    ensures CountSum(GroupCounts(t, col), keys) == |MembersOfAny(t, col, keys)|
    decreases keys
  {
    if keys == {} {
      assert MembersOfAny(t, col, keys) == {};
    } else {
      var x := Pick(keys);
      var rest := keys - {x};
      CountSumIsUnion(t, col, rest);
      assert MembersOfAny(t, col, keys) == Members(t, col, x) + MembersOfAny(t, col, rest);
      assert Members(t, col, x) * MembersOfAny(t, col, rest) == {};
    }
  }

  /** Each group counts the rows whose column holds it, which is at least one
      row and at most all of them, and the counts of all groups add up to the
      rows whose column is not null. */
  lemma GroupCountsSum(t: Table, col: Label)
    ensures forall g :: g in GroupCounts(t, col) <==> exists k :: k in t && col(t[k]) == Some(g)
    ensures forall g :: g in GroupCounts(t, col) ==>
      GroupCounts(t, col)[g] == |Members(t, col, g)| && 1 <= GroupCounts(t, col)[g] <= |t|
    ensures CountSum(GroupCounts(t, col), GroupCounts(t, col).Keys) == |Labelled(t, col)|
  {
    var m := GroupCounts(t, col);
    forall g | exists k :: k in t && col(t[k]) == Some(g)
      ensures g in m
    {
      var k :| k in t && col(t[k]) == Some(g);
      assert col(t[k]).value == g;
    }
    forall g | g in m
      ensures 1 <= m[g] <= |t|
    {
      var k :| k in t && col(t[k]).Some? && col(t[k]).value == g;
      assert k in Members(t, col, g);
      SubsetCard(Members(t, col, g), t.Keys);
    }
    CountSumIsUnion(t, col, m.Keys);
    forall k | k in Labelled(t, col)
      ensures k in MembersOfAny(t, col, m.Keys)
    {
      assert col(t[k]).value in m;
    }
    assert MembersOfAny(t, col, m.Keys) == Labelled(t, col);
  }

  /** `by_type`: one count per type that occurs, counting its rows; the counts
      add up to all rows, since every row has a type. */
  lemma TypeCounts(t: Table)
    ensures forall ty :: ty in GroupCounts(t, TypeOf) <==> exists k :: k in t && t[k].nodeType == ty
    ensures forall ty :: ty in GroupCounts(t, TypeOf) ==>
      GroupCounts(t, TypeOf)[ty] == |set k | k in t && t[k].nodeType == ty| && 1 <= GroupCounts(t, TypeOf)[ty] <= |t|
    ensures CountSum(GroupCounts(t, TypeOf), GroupCounts(t, TypeOf).Keys) == |t|
  {
    GroupCountsSum(t, TypeOf);
    assert Labelled(t, TypeOf) == t.Keys;
    forall ty ensures Members(t, TypeOf, ty) == set k | k in t && t[k].nodeType == ty {
    }
  }

  /** `by_status`: one count per status that is set, counting its rows; the
      counts add up to the rows with a status. */
  lemma StatusCounts(t: Table)
    ensures forall st :: st in GroupCounts(t, StatusOf) <==> exists k :: k in t && t[k].status == Some(st)
    ensures forall st :: st in GroupCounts(t, StatusOf) ==>
      GroupCounts(t, StatusOf)[st] == |set k | k in t && t[k].status == Some(st)|
      && 1 <= GroupCounts(t, StatusOf)[st] <= |t|
    ensures CountSum(GroupCounts(t, StatusOf), GroupCounts(t, StatusOf).Keys) == |set k | k in t && t[k].status.Some?|
  {
    GroupCountsSum(t, StatusOf);
    assert Labelled(t, StatusOf) == set k | k in t && t[k].status.Some?;
    forall st ensures Members(t, StatusOf, st) == set k | k in t && t[k].status == Some(st) {
    }
  }

  /** `get_stats`: `total_nodes` counts the rows; `by_type` has a key for each
      type that occurs, counting its rows, and these counts add up to
      `total_nodes`; `by_status` likewise for the statuses that are set, adding
      up to the rows with a status. Every count lies between 1 and the total. */
  lemma StatsMeaning(t: Table)
    ensures StatsOf(t).totalNodes == |t|
    ensures forall ty :: ty in StatsOf(t).byType <==> exists k :: k in t && t[k].nodeType == ty
    ensures forall ty :: ty in StatsOf(t).byType ==>
      StatsOf(t).byType[ty] == |set k | k in t && t[k].nodeType == ty| && 1 <= StatsOf(t).byType[ty] <= |t|
    ensures CountSum(StatsOf(t).byType, StatsOf(t).byType.Keys) == StatsOf(t).totalNodes
    ensures forall st :: st in StatsOf(t).byStatus <==> exists k :: k in t && t[k].status == Some(st)
    ensures forall st :: st in StatsOf(t).byStatus ==>
      StatsOf(t).byStatus[st] == |set k | k in t && t[k].status == Some(st)| && 1 <= StatsOf(t).byStatus[st] <= |t|
    ensures CountSum(StatsOf(t).byStatus, StatsOf(t).byStatus.Keys) == |set k | k in t && t[k].status.Some?|
  {
    TypeCounts(t);
    StatusCounts(t);
  }

  // ---------------------------------------------------------------------------
  // The manager

  /** `DatabaseManager` over one table. `accepts` stands for the row checks of
      the unseen `pydantic_insert` other than the primary key. */
  class DatabaseManager {
    const tableName: string
    const accepts: Node -> bool
    var table: Table

    predicate Valid()
      reads this
    {
      KeysAreIds(table)
    }

    constructor(tableName: string, accepts: Node -> bool, initial: Table)
      requires KeysAreIds(initial)
      ensures Valid()
      ensures this.tableName == tableName && this.accepts == accepts && table == initial
    {
      this.tableName := tableName;
      this.accepts := accepts;
      table := initial;
    }

    /** `util.pydantic_insert(self.table_name, rows)`. */
    method PydanticInsert(rows: seq<Node>) returns (r: Result<(), InsertFailure>)
      requires Valid()
      modifies this
      ensures Valid()
      ensures InsertRows(old(table), rows, accepts).Success? ==> r.Success? && table == InsertRows(old(table), rows, accepts).value
      ensures InsertRows(old(table), rows, accepts).Failure? ==> r == Failure(InsertRows(old(table), rows, accepts).error) && table == old(table)
    {
      var attempt := InsertRows(table, rows, accepts);
      if attempt.Success? {
        InsertRowsAdds(table, rows, accepts);
        table := attempt.value;
        return Success(());
      }
      return Failure(attempt.error);
    }

    /** `insert_node`. */
    method InsertNode(node: Node, ignoreDuplicate: bool) returns (r: Result<Node, DatabaseFailure>)
      requires Valid()
      modifies this
      ensures Valid()
      ensures Outcome(r, table) == InsertOutcome(old(table), node, ignoreDuplicate, accepts)
    {
      var attempt := PydanticInsert([node]);
      if attempt.Success? {
        return Success(node);
      }
      if attempt.error == UniqueViolation {
        if ignoreDuplicate {
          return Success(node);
        }
        r := HandleDuplicateWithVersion(node);
        return r;
      }
      return Failure(InsertionFailed);
    }

    /** `_handle_duplicate_with_version`: tags the metadata, then probes
        versions 2 to 9 with the tag cut off the id. */
    method HandleDuplicateWithVersion(node: Node) returns (r: Result<Node, DatabaseFailure>)
      requires Valid()
      modifies this
      ensures Valid()
      ensures Outcome(r, table) == VersionOutcome(old(table), node, accepts)
    {
      var baseId := node.id;
      var originalId := baseId;
      var tagged := if node.coreMetadata.Some? && node.coreMetadata.value != map[]
        then node.(coreMetadata := Some(node.coreMetadata.value[DuplicatedFromKey := originalId]))
        else node.(coreMetadata := Some(map[DuplicatedFromKey := originalId]));
      assert tagged == Tagged(node);
      BaseIdHasNoTag(originalId);
      var i := 2;
      while i < 10
        invariant 2 <= i <= 10
        invariant table == old(table) && Valid()
        invariant i > 2 ==> baseId == BaseId(originalId)
        invariant i == 2 ==> baseId == originalId
        invariant TryVersions(table, node, i, accepts) == VersionOutcome(old(table), node, accepts)
      {
        var vIndex := Find(baseId, VersionTag);
        if vIndex.Some? {
          baseId := baseId[..vIndex.value];
        }
        assert baseId == BaseId(originalId);
        var newId := baseId + VersionTag + [DigitChar(i)];
        var candidate := tagged.(id := newId);
        assert candidate == VersionedCopy(node, i);
        var attempt := PydanticInsert([candidate]);
        if attempt.Success? {
          return Success(candidate);
        }
        if attempt.error == Rejected {
          return Failure(Raised(Rejected));
        }
        i := i + 1;
      }
      return Failure(VersionsExhausted);
    }

    /** One pass of the chunk loop of `batch_insert`: the chunk in one
        statement, and on any failure node by node through `insert_node`. */
    method InsertChunk(chunk: seq<Node>, ignoreDuplicates: bool) returns (r: Result<seq<Node>, DatabaseFailure>)
      requires Valid()
      modifies this
      ensures Valid()
      ensures Outcome(r, table) == ChunkAttempt(old(table), chunk, ignoreDuplicates, accepts)
    {
      var attempt := PydanticInsert(chunk);
      if attempt.Success? {
        return Success(chunk);
      }
      var successful: seq<Node> := [];
      var j := 0;
      assert chunk[0..] == chunk;
      PrependAssociates([], [], Sequential(table, chunk, ignoreDuplicates, accepts));
      while j < |chunk|
        invariant 0 <= j <= |chunk| && Valid()
        invariant ChunkAttempt(old(table), chunk, ignoreDuplicates, accepts)
               == Prepend(successful, Sequential(table, chunk[j..], ignoreDuplicates, accepts))
      {
        assert chunk[j..][0] == chunk[j] && chunk[j..][1..] == chunk[j + 1..];
        var inserted := InsertNode(chunk[j], ignoreDuplicates);
        if inserted.Success? {
          PrependAssociates(successful, [inserted.value], Sequential(table, chunk[j + 1..], ignoreDuplicates, accepts));
          successful := successful + [inserted.value];
        } else if !ignoreDuplicates {
          return Failure(inserted.error);
        }
        j := j + 1;
      }
      assert chunk[j..] == [];
      assert successful + [] == successful;
      return Success(successful);
    }

    /** `batch_insert`: the chunk loop over `range(0, len(nodes), batch_size)`. */
    method BatchInsert(nodes: seq<Node>, batchSize: int, ignoreDuplicates: bool) returns (r: Result<seq<Node>, DatabaseFailure>)
      requires Valid()
      modifies this
      ensures Valid()
      ensures Outcome(r, table) == BatchOutcome(old(table), nodes, batchSize, ignoreDuplicates, accepts)
    {
      if nodes == [] {
        return Success([]);
      }
      if batchSize == 0 {
        return Failure(InvalidBatchSize);
      }
      var successful: seq<Node> := [];
      if batchSize < 0 {
        return Success(successful);
      }
      var size: nat := batchSize;
      var i := 0;
      assert nodes[0..] == nodes;
      PrependAssociates([], [], Chunked(table, nodes, size, ignoreDuplicates, accepts));
      while i < |nodes|
        invariant 0 <= i <= |nodes| && Valid()
        invariant Chunked(old(table), nodes, size, ignoreDuplicates, accepts)
               == Prepend(successful, Chunked(table, nodes[i..], size, ignoreDuplicates, accepts))
      {
        var k := ChunkLength(|nodes| - i, size);
        var chunk := nodes[i..i + k];
        assert nodes[i..][..k] == chunk && nodes[i..][k..] == nodes[i + k..];
        ghost var rest := nodes[i + k..];
        var inserted := InsertChunk(chunk, ignoreDuplicates);
        if inserted.Failure? {
          return Failure(inserted.error);
        }
        PrependAssociates(successful, inserted.value, Chunked(table, rest, size, ignoreDuplicates, accepts));
        successful := successful + inserted.value;
        i := i + k;
      }
      assert nodes[i..] == [];
      assert successful + [] == successful;
      return Success(successful);
    }

    /** `node_exists`: some stored row has this id. */
    function NodeExists(nodeId: string): (b: bool)
      requires Valid()
      reads this
      ensures b <==> exists k :: k in table && table[k].id == nodeId
    {
      nodeId in table
    }

    /** `get_children`: the rows with this parent (and this type, when one is
        given), in ascending id order. */
    function GetChildren(parentId: string, nodeType: Option<string>): (children: seq<Node>)
      requires Valid()
      reads this
      ensures forall i :: 0 <= i < |children| ==>
        children[i].id in table && table[children[i].id] == children[i] && MatchesChild(children[i], parentId, nodeType)
      ensures forall k :: k in table && MatchesChild(table[k], parentId, nodeType) ==>
        exists i :: 0 <= i < |children| && children[i].id == k
      ensures forall i, j :: 0 <= i < j < |children| ==> LexLess(children[i].id, children[j].id)
    {
      ChildIdsSorted(table, parentId, nodeType);
      ChildRowsMeaning(table, parentId, nodeType);
      Rows(table, SortedIds(ChildIds(table, parentId, nodeType)))
    }

    /** `get_stats`: the statistics of the stored rows (see `StatsMeaning`). */
    function GetStats(): (r: Stats)
      reads this
      ensures r == StatsOf(table)
    {
      StatsOf(table)
    }

    /** `update_node`: `pydantic_update` keyed on `id`; a row it refuses gives
        `False` and no change, and an id with no row updates nothing. */
    method UpdateNode(node: Node) returns (ok: bool)
      requires Valid()
      modifies this
      ensures Valid()
      ensures ok <==> accepts(node)
      ensures ok && node.id in old(table) ==> table == old(table)[node.id := node]
      ensures !ok || node.id !in old(table) ==> table == old(table)
    {
      if !accepts(node) {
        return false;
      }
      if node.id in table {
        table := table[node.id := node];
      }
      return true;
    }

    /** `delete_node`: removes the row if there is one, and reports success. */
    method DeleteNode(nodeId: string) returns (ok: bool)
      requires Valid()
      modifies this
      ensures Valid()
      ensures ok && table == old(table) - {nodeId}
    {
      table := table - {nodeId};
      return true;
    }
  }
}
