/** Reading the rows of a query result: the server sends packets, some of which hold blocks of
    rows; the connection goes back to its pool when the result has been read. */
module QueryRows {

  /** What the server sends. `Broken` is an exception of the server, a packet that cannot be read,
      or an unknown one. When the packets run out, reading fails as well. */
  datatype Packet = Data(rows: seq<int>) | Info | EndOfStream | Broken

  /** What is found from a position on. */
  datatype Found = Block(rows: seq<int>, next: nat) | Finished(next: nat) | Failed(next: nat)

  function FindBlock(packets: seq<Packet>, pos: nat): (found: Found)
    requires pos <= |packets|
    ensures pos <= found.next <= |packets| && (found.Block? ==> pos < found.next)
    decreases |packets| - pos
  {
    if pos == |packets| then Failed(pos)
    else
      match packets[pos]
      case Data(rows) => Block(rows, pos + 1)
      case Info => FindBlock(packets, pos + 1)
      case EndOfStream => Finished(pos + 1)
      case Broken => Failed(pos + 1)
  }

  /** All rows from a position on, up to the end of the stream or the first failure. */
  function RowsFrom(packets: seq<Packet>, pos: nat): seq<int>
    requires pos <= |packets|
    decreases |packets| - pos
  {
    match FindBlock(packets, pos)
    case Block(rows, next) => rows + RowsFrom(packets, next)
    case _ => []
  }

  /** The stream comes to its end without a failure. */
  predicate EndsWell(packets: seq<Packet>, pos: nat)
    requires pos <= |packets|
    decreases |packets| - pos
  {
    match FindBlock(packets, pos)
    case Block(_, next) => EndsWell(packets, next)
    case Finished(_) => true
    case Failed(_) => false
  }

  // ---------------------------------------------------------------------------
  // What a stream holds
  // ---------------------------------------------------------------------------

  predicate Stops(packet: Packet) {
    packet.EndOfStream? || packet.Broken?
  }

  /** The first packet from a position on that ends the stream, for better or worse; if there is
      none, where the packets run out. */
  function StopAt(packets: seq<Packet>, pos: nat): (k: nat)
    requires pos <= |packets|
    ensures pos <= k <= |packets|
    ensures forall i :: pos <= i < k ==> !Stops(packets[i])
    ensures k < |packets| ==> Stops(packets[k])
    decreases |packets| - pos
  {
    if pos == |packets| || Stops(packets[pos]) then pos else StopAt(packets, pos + 1)
  }

  /** The rows of all blocks among these packets, in order. */
  function BlockRows(packets: seq<Packet>): seq<int> {
    if packets == [] then []
    else
      var last := packets[|packets| - 1];
      BlockRows(packets[..|packets| - 1]) + if last.Data? then last.rows else []
  }

  lemma {:induction false} BlockRowsConcat(a: seq<Packet>, b: seq<Packet>)
    ensures BlockRows(a + b) == BlockRows(a) + BlockRows(b)
  {
    if b == [] {
      assert a + b == a;
    } else {
      var last := |b| - 1;
      BlockRowsConcat(a, b[..last]);
      assert (a + b)[..|a + b| - 1] == a + b[..last];
    }
  }

  lemma FirstBlock(packets: seq<Packet>, pos: nat, k: nat)
    requires pos < k <= |packets|
    ensures BlockRows(packets[pos..k])
         == (if packets[pos].Data? then packets[pos].rows else []) + BlockRows(packets[pos + 1..k])
  {
    assert packets[pos..k] == [packets[pos]] + packets[pos + 1..k];
    BlockRowsConcat([packets[pos]], packets[pos + 1..k]);
    assert [packets[pos]][..0] == [] && BlockRows([]) == [];
  }

  /** From any position on, what is read are the rows of all blocks before the first packet that
      ends the stream: none is left out, whatever stands between them. */
  lemma {:induction false} RowsAreBlocks(packets: seq<Packet>, pos: nat)
    requires pos <= |packets|
    ensures RowsFrom(packets, pos) == BlockRows(packets[pos..StopAt(packets, pos)])
    decreases |packets| - pos
  {
    if pos < |packets| && !Stops(packets[pos]) {
      RowsAreBlocks(packets, pos + 1);
      FirstBlock(packets, pos, StopAt(packets, pos));
    }
  }

  /** The stream comes to its end if and only if that packet is there and says so. */
  lemma {:induction false} EndsWellIff(packets: seq<Packet>, pos: nat)
    requires pos <= |packets|
    ensures EndsWell(packets, pos) <==> StopAt(packets, pos) < |packets| && packets[StopAt(packets, pos)].EndOfStream?
    decreases |packets| - pos
  {
    if pos < |packets| && !Stops(packets[pos]) { EndsWellIff(packets, pos + 1); }
  }

  /** A whole stream, with `k` its first packet that ends it. */
  lemma {:induction false} StreamRows(packets: seq<Packet>, k: nat)
    requires k <= |packets| && (forall i :: 0 <= i < k ==> !Stops(packets[i])) && (k < |packets| ==> Stops(packets[k]))
    ensures RowsFrom(packets, 0) == BlockRows(packets[..k])
    ensures EndsWell(packets, 0) <==> k < |packets| && packets[k].EndOfStream?
  {
    assert StopAt(packets, 0) == k;
    assert packets[0..k] == packets[..k];
    RowsAreBlocks(packets, 0);
    EndsWellIff(packets, 0);
  }

  /** A connection, with what became of it: each time it was released, whether as a bad one,
      which the pool removes. */
  class Conn {
    var releases: seq<bool>

    constructor ()
      ensures releases == []
    {
      releases := [];
    }
  }

  class BlockIter {
    const conn: Conn
    const packets: seq<Packet>
    var open: bool
    var pos: nat
    var stickyErr: bool

    constructor (conn: Conn, packets: seq<Packet>)
      requires conn.releases == []
      ensures this.conn == conn && this.packets == packets && open && pos == 0 && !stickyErr && Valid()
    {
      this.conn, this.packets, open, pos, stickyErr := conn, packets, true, 0, false;
    }

    /** The connection is released exactly when the iterator is closed, once, and as a bad one if
        and only if there was an error. */
    predicate Valid()
      reads this, conn
    {
      pos <= |packets| && (open ==> !stickyErr) && conn.releases == if open then [] else [stickyErr]
    }

    method Release()
      requires open && conn.releases == []
      modifies this`open, conn
      ensures !open && conn.releases == [stickyErr]
    {
      conn.releases := conn.releases + [stickyErr];
      open := false;
    }

    method Close()
      requires Valid()
      modifies this`open, conn
      ensures Valid() && !open
    {
      if open {
        Release();
      }
    }

    /** Reads packets up to the next block. */
    method Read() returns (ok: bool, err: bool, block: seq<int>)
      requires pos <= |packets|
      modifies this`pos
      ensures pos == FindBlock(packets, old(pos)).next
      ensures ok <==> FindBlock(packets, old(pos)).Block?
      ensures err <==> FindBlock(packets, old(pos)).Failed?
      ensures ok ==> block == FindBlock(packets, old(pos)).rows
    {
      block := [];
      while true
        invariant pos <= |packets| && FindBlock(packets, pos) == FindBlock(packets, old(pos))
        decreases |packets| - pos
      {
        if pos == |packets| { return false, true, []; }
        var packet := packets[pos];
        pos := pos + 1;
        match packet
        case Data(rows) => return true, false, rows;
        case Info =>
        case EndOfStream => return false, false, [];
        case Broken => return false, true, [];
      }
    }

    method Next() returns (ok: bool, block: seq<int>)
      requires Valid()
      modifies this, conn
      ensures Valid()
      ensures ok ==> old(open) && open && FindBlock(packets, old(pos)) == Block(block, pos)
      ensures !ok ==> !open
      ensures !ok && old(open) ==> !FindBlock(packets, old(pos)).Block? && stickyErr == FindBlock(packets, old(pos)).Failed?
      ensures !old(open) ==> unchanged(this) && unchanged(conn)
    {
      if !open { return false, []; }
      var err;
      ok, err, block := Read();
      if err {
        stickyErr := true;
        Release();
        return false, [];
      }
      if !ok {
        Release();
      }
    }
  }

  class Rows {
    const blocks: BlockIter
    var block: seq<int>
    var rowIndex: nat
    var hasNext: bool
    var closed: bool

    constructor (blocks: BlockIter)
      requires blocks.Valid() && blocks.open
      ensures this.blocks == blocks && Valid() && !closed && !hasNext
      ensures Remaining() == RowsFrom(blocks.packets, blocks.pos)
    {
      this.blocks, block, rowIndex, hasNext, closed := blocks, [], 0, false, false;
      new;
      assert [] + RowsFrom(blocks.packets, blocks.pos) == RowsFrom(blocks.packets, blocks.pos);
    }

    predicate Valid()
      reads this, blocks, blocks.conn
    {
      && blocks.Valid() && (closed <==> !blocks.open)
      && (!closed ==> rowIndex <= |block| && (hasNext ==> 0 < rowIndex))
    }

    /** The rows that are still to come. */
    ghost function Remaining(): seq<int>
      requires Valid()
      reads this, blocks, blocks.conn
    {
      if closed then [] else block[rowIndex..] + RowsFrom(blocks.packets, blocks.pos)
    }

    /** Whether the rest of the stream, or what was read of it, is free of errors. */
    ghost predicate Fine()
      requires Valid()
      reads this, blocks, blocks.conn
    {
      if closed then !blocks.stickyErr else EndsWell(blocks.packets, blocks.pos)
    }

    method CloseNow()
      requires blocks.Valid()
      modifies this`closed, this`block, blocks`open, blocks.conn
      ensures closed && Valid() && !blocks.open
    {
      closed := true;
      block := [];
      blocks.Close();
    }

    /** Reads blocks until there is a row that has not been moved to, or the stream is over. */
    method Advance(ghost rest: seq<int>, ghost fine: bool) returns (ok: bool)
      requires blocks.Valid() && blocks.open && !closed && rowIndex <= |block|
      requires block[rowIndex..] + RowsFrom(blocks.packets, blocks.pos) == rest
      requires EndsWell(blocks.packets, blocks.pos) == fine
      modifies this`block, this`rowIndex, blocks, blocks.conn
      ensures blocks.Valid() && (ok <==> blocks.open) && (ok <==> rest != [])
      ensures ok ==> rowIndex < |block| && block[rowIndex] == rest[0]
      ensures ok ==> block[rowIndex + 1..] + RowsFrom(blocks.packets, blocks.pos) == rest[1..]
      ensures ok ==> EndsWell(blocks.packets, blocks.pos) == fine
      ensures !ok ==> !blocks.stickyErr == fine
    {
      while rowIndex >= |block|
        invariant blocks.Valid() && blocks.open && rowIndex <= |block|
        invariant block[rowIndex..] + RowsFrom(blocks.packets, blocks.pos) == rest
        invariant EndsWell(blocks.packets, blocks.pos) == fine
        decreases |blocks.packets| - blocks.pos
      {
        assert block[rowIndex..] == [] && RowsFrom(blocks.packets, blocks.pos) == rest;
        var more, next := blocks.Next();
        if !more { return false; }
        block := next;
        rowIndex := 0;
        assert block[0..] == block;
      }
      ok := true;
    }

    /** Moves on to the next row: no row is skipped and none comes twice. At the end, and after an
        error, the connection is released. */
    method Next() returns (ok: bool)
      requires Valid()
      modifies this, blocks, blocks.conn
      ensures Valid() && Fine() == old(Fine())
      ensures ok <==> old(Remaining()) != []
      ensures ok ==> !closed && hasNext && block[rowIndex - 1] == old(Remaining())[0] && Remaining() == old(Remaining())[1..]
      ensures !ok ==> closed && Remaining() == []
    {
      if closed { return false; }
      ok := Advance(Remaining(), Fine());
      if !ok {
        CloseNow();
        return;
      }
      hasNext := true;
      rowIndex := rowIndex + 1;
    }

    /** Hands out the row that `Next` has moved to, once. After the end it hands out nothing and
        says whether there was an error. */
    method Scan(columns: nat, dest: nat) returns (err: bool, row: int)
      requires Valid()
      modifies this`hasNext
      ensures Valid() && Remaining() == old(Remaining()) && Fine() == old(Fine())
      ensures closed ==> err == !Fine() && hasNext == old(hasNext)
      ensures !closed ==> !hasNext && (err <==> !old(hasNext) || columns != dest)
      ensures !closed && !err ==> row == block[rowIndex - 1]
    {
      row := 0;
      if closed { return blocks.stickyErr, 0; }
      if !hasNext { return true, 0; }
      hasNext := false;
      if columns != dest { return true, 0; }
      err, row := false, block[rowIndex - 1];
    }

    /** Reads what is left before the connection is released: it goes back to the pool only if the
        stream has come to its end. */
    method Close()
      requires Valid()
      modifies this, blocks, blocks.conn
      ensures Valid() && closed && Fine() == old(Fine())
      ensures blocks.conn.releases == [!old(Fine())]
    {
      if closed { return; }
      var more := true;
      while more
        invariant blocks.Valid() && (more ==> blocks.open) && (!more ==> !blocks.open)
        invariant more ==> EndsWell(blocks.packets, blocks.pos) == old(Fine())
        invariant !more ==> !blocks.stickyErr == old(Fine())
        decreases if more then |blocks.packets| - blocks.pos + 1 else 0
      {
        more, block := blocks.Next();
      }
      CloseNow();
    }
  }

  /** The rows of the blocks that have not been read. */
  ghost function BlocksLeft(blocks: BlockIter): seq<int>
    requires blocks.pos <= |blocks.packets|
    reads blocks
  {
    BlockRows(blocks.packets[blocks.pos..StopAt(blocks.packets, blocks.pos)])
  }

  /** A query for one row: the row, or the information that there is none; in any case the rest is
      read and the connection is released, once. That there is none is also said of a stream that
      fails before its first row: then, and only then, it is said although the connection is
      released as broken. */
  method ScanOne(rows: Rows, columns: nat, dest: nat) returns (none: bool, err: bool, row: int)
    requires rows.Valid()
    modifies rows, rows.blocks, rows.blocks.conn
    ensures rows.Valid() && rows.closed && rows.blocks.conn.releases == [!old(rows.Fine())]
    ensures none <==> old(rows.Remaining()) == []
    ensures none ==> !err
    ensures none && rows.blocks.conn.releases == [true] <==> old(rows.Remaining()) == [] && !old(rows.Fine())
    ensures !none ==> (err <==> columns != dest)
    ensures !none && !err ==> row == old(rows.Remaining())[0]
  {
    var ok := rows.Next();
    none, err, row := !ok, false, 0;
    if ok {
      err, row := rows.Scan(columns, dest);
    }
    rows.Close();
  }

  /** One turn of reading row by row. */
  method ReadOne(rows: Rows, columns: nat, ghost first: int, ghost later: seq<int>) returns (row: int, more: bool)
    requires rows.Valid() && !rows.closed && rows.hasNext
    requires rows.block[rows.rowIndex - 1] == first && rows.Remaining() == later
    modifies rows, rows.blocks, rows.blocks.conn
    ensures rows.Valid() && rows.Fine() == old(rows.Fine())
    ensures row == first && (more <==> later != [])
    ensures more ==> !rows.closed && rows.hasNext && rows.block[rows.rowIndex - 1] == later[0] && rows.Remaining() == later[1..]
    ensures !more ==> rows.closed
  {
    var err;
    err, row := rows.Scan(columns, columns);
    more := rows.Next();
  }

  /** Reading row by row gives all rows in order: what is left of the current block, and then the rows
      of all blocks before the first packet that ends the stream. */
  method ReadAll(rows: Rows, columns: nat) returns (all: seq<int>)
    requires rows.Valid()
    modifies rows, rows.blocks, rows.blocks.conn
    ensures rows.Valid() && rows.closed && rows.blocks.conn.releases == [!old(rows.Fine())]
    ensures all == old(rows.Remaining())
    ensures old(!rows.closed) ==>
      all == old(rows.block[rows.rowIndex..] + BlocksLeft(rows.blocks))
  {
    RowsAreBlocks(rows.blocks.packets, rows.blocks.pos);
    all := [];
    ghost var total, rest := rows.Remaining(), rows.Remaining();
    var ok := rows.Next();
    while ok
      invariant rows.Valid() && rows.Fine() == old(rows.Fine())
      invariant all + rest == total && (ok <==> rest != [])
      invariant ok ==> !rows.closed && rows.hasNext && rows.block[rows.rowIndex - 1] == rest[0] && rows.Remaining() == rest[1..]
      invariant !ok ==> rows.closed
      decreases |rest|
    {
      MoveOne(all, rest);
      var row;
      row, ok := ReadOne(rows, columns, rest[0], rest[1..]);
      all, rest := all + [row], rest[1..];
    }
  }

  /** A query whose result is read row by row: all rows of all blocks before the first packet that
      ends the stream, in order; the connection is kept if and only if that one is there and is the
      end of the stream. */
  method ReadStream(conn: Conn, packets: seq<Packet>, columns: nat) returns (all: seq<int>)
    requires conn.releases == []
    modifies conn
    ensures var k := StopAt(packets, 0);
      && all == BlockRows(packets[..k])
      && conn.releases == [!(k < |packets| && packets[k].EndOfStream?)]
  {
    var blocks := new BlockIter(conn, packets);
    var rows := new Rows(blocks);
    all := ReadAll(rows, columns);
    StreamRows(packets, StopAt(packets, 0));
  }

  lemma MoveOne(a: seq<int>, b: seq<int>)
    requires b != []
    ensures a + [b[0]] + b[1..] == a + b
  {
  }
}
