/** The listener's connection table as an object: each method is what one call does under the lock. */
module Listener {
  import opened ListenerProtocol

  class Conn {
    const pk: PublicKey
    ghost const id: ConnId
    var closed: bool

    constructor (pk: PublicKey, ghost id: ConnId)
      ensures this.pk == pk && this.id == id && !closed
    {
      this.pk, this.id, closed := pk, id, false;
    }
  }

  class Listener {
    var established: map<PublicKey, Conn>
    ghost var conns: seq<Conn>
    ghost var table: Table

    ghost predicate Valid()
      reads this, conns
    {
      && TableOk(table)
      && |conns| == |table.conns|
      && (forall i | 0 <= i < |conns| :: Shows(conns[i], i, table.conns[i]))
      && established.Keys == table.established.Keys
      && (forall pk | pk in established ::
            table.established[pk] < |conns| && established[pk] == conns[table.established[pk]])
    }

    ghost predicate Shows(c: Conn, i: nat, info: ConnInfo)
      reads c
    {
      c.id == i && c.pk == info.pk && c.closed == info.closed
    }

    constructor ()
      ensures Valid() && table == Init().table
    {
      established, conns, table := map[], [], Table([], map[]);
    }

    method NewConn(pk: PublicKey) returns (c: Conn)
      requires Valid()
      modifies this`conns, this`table
      ensures Valid() && fresh(c) && conns == old(conns) + [c]
      ensures (table, c.id) == Create(old(table), pk)
    {
      c := new Conn(pk, |conns|);
      CreateOk(table, pk);
      conns, table := conns + [c], Create(table, pk).0;
    }

    method LookUp(pk: PublicKey) returns (c: Conn?)
      requires Valid()
      ensures c != null <==> pk in table.established
      ensures c != null ==> c.id == table.established[pk] && c.pk == pk && !c.closed
    {
      if pk in established {
        return established[pk];
      }
      return null;
    }

    /** The recheck: what is there by now wins. */
    method Publish(conn: Conn) returns (c: Conn)
      requires Valid() && conn in conns && Private(table, conn.pk, conn.id)
      modifies this`established, this`table
      ensures Valid() && c in conns
      ensures (table, c.id) == ListenerProtocol.Publish(old(table), conn.id)
      ensures c.pk == conn.pk && !c.closed && established[conn.pk] == c
    {
      PublishOk(table, conn.pk, conn.id);
      if conn.pk in established {
        return established[conn.pk];
      }
      table := ListenerProtocol.Publish(table, conn.id).0;
      established := established[conn.pk := conn];
      return conn;
    }

    /** Close: the first close of a connection releases its entry, later ones fail and change nothing. */
    method Close(conn: Conn) returns (ok: bool)
      requires Valid() && conn in conns && table.conns[conn.id].returned
      modifies this`established, this`table, conn`closed
      ensures Valid() && conn.closed && ok == !old(conn.closed)
      ensures table == Release(old(table), conn.id)
      ensures conn !in established.Values
    {
      ReleaseOk(table, conn.id);
      if conn.closed {
        return false;
      }
      conn.closed := true;
      table := Release(table, conn.id);
      if conn.pk in established && established[conn.pk] == conn {
        established := established - {conn.pk};
      }
      return true;
    }
  }
}
