/** What a database scan lists, and when its two implementations agree. */
module GreyScans {
  import opened Grey

  /** Passes are counted from -1 up, and never negative for a tuple. */
  ghost predicate Counted(t: Table) {
    forall k :: k in t ==> t[k].pcount >= -1 && (k.Grey? ==> t[k].pcount >= 0)
  }

  /** Every tuple names a sender and a recipient. */
  ghost predicate Named(t: Table) {
    forall k :: k in t && k.Grey? ==> k.tuple.from != "" && k.tuple.to != ""
  }

  ghost predicate Live(t: Table, k: Key, now: int) {
    k in t && t[k].expire > now
  }

  ghost predicate TrapRow(t: Table, x: string) {
    Ip(x) in t && t[Ip(x)].pcount == -1
  }

  /** An unexpired tuple of address `x` whose pass time has come. */
  ghost predicate Passing(t: Table, k: Key, x: string, now: int) {
    k.Grey? && k.tuple.ip == x && Live(t, k, now) && t[k].pass <= now
  }

  ghost predicate SomePassing(t: Table, x: string, now: int) {
    exists k :: Passing(t, k, x, now)
  }

  /** Such a tuple that names a sender and a recipient. */
  ghost predicate SomeNamedPassing(t: Table, x: string, now: int) {
    exists k :: Passing(t, k, x, now) && k.tuple.from != "" && k.tuple.to != ""
  }

  /** An unexpired tuple of address `x` that names neither. One with an empty HELO argument too has the key columns of
      the address row itself in an SQL table; here, as in a Berkeley database, the two keys stay apart. */
  ghost predicate Bare(t: Table, k: Key, x: string, now: int) {
    k.Grey? && k.tuple.ip == x && k.tuple.from == "" && k.tuple.to == "" && Live(t, k, now)
  }

  ghost predicate SomeBare(t: Table, x: string, now: int) {
    exists k :: Bare(t, k, x, now)
  }

  ghost predicate Distinct(order: seq<Key>) {
    forall i, j :: 0 <= i < j < |order| ==> order[i] != order[j]
  }

  ghost predicate InWhite(s: Scan, x: string) {
    x in s.white || x in s.white6
  }

  /** When the cursor comes by entry `j` of the order, address `x` still counts as trapped. */
  ghost predicate Blocked(t: Table, order: seq<Key>, j: int, x: string, now: int)
    requires 0 <= j <= |order|
  {
    TrapRow(t, x) && (Live(t, Ip(x), now) || Ip(x) !in order[..j])
  }

  /** The cursor came by a passing tuple while its address did not count as trapped. */
  ghost predicate Promoted(t: Table, order: seq<Key>, x: string, now: int) {
    exists j :: 0 <= j < |order| && Passing(t, order[j], x, now) && !Blocked(t, order, j, x, now)
  }

  ghost predicate WhiteRowPassed(t: Table, order: seq<Key>, x: string, now: int) {
    Ip(x) in order && Live(t, Ip(x), now) && t[Ip(x)].pcount >= 0 && t[Ip(x)].pass <= now
  }

  /** The part of the scan state that concerns address `x`, in terms of the table before the scan. */
  ghost predicate Tracks(t: Table, order: seq<Key>, s: Scan, x: string, now: int) {
    && (InWhite(s, x) <==> Promoted(t, order, x, now) || WhiteRowPassed(t, order, x, now))
    && (x in s.trapped <==> TrapRow(t, x) && Live(t, Ip(x), now) && Ip(x) in order)
    && (Ip(x) in s.table ==>
          (Ip(x) in t && s.table[Ip(x)] == t[Ip(x)]) || (s.table[Ip(x)].pcount >= 0 && Promoted(t, order, x, now)))
    && (Blocked(t, order, |order|, x, now) ==> Ip(x) in s.table && s.table[Ip(x)] == t[Ip(x)])
    && (TrapRow(t, x) && !Blocked(t, order, |order|, x, now) && Ip(x) in s.table ==> s.table[Ip(x)].pcount >= 0)
    && (Ip(x) in t && Ip(x) !in order ==> Ip(x) in s.table)
    && (forall u: Tuple :: u.ip == x && Key.Grey(u) in s.table ==>
        Key.Grey(u) in t && s.table[Key.Grey(u)] == t[Key.Grey(u)])
    && (forall u: Tuple :: u.ip == x && Key.Grey(u) in t && Key.Grey(u) !in order ==> Key.Grey(u) in s.table)
  }

  lemma PromotedSnoc(t: Table, order: seq<Key>, k: Key, x: string, now: int)
    ensures Promoted(t, order + [k], x, now) <==>
              Promoted(t, order, x, now) || (Passing(t, k, x, now) && !Blocked(t, order, |order|, x, now))
  {
    var o := order + [k];
    forall j | 0 <= j <= |order| ensures Blocked(t, o, j, x, now) == Blocked(t, order, j, x, now) {
      assert o[..j] == order[..j];
    }
    if j :| 0 <= j < |order| && Passing(t, order[j], x, now) && !Blocked(t, order, j, x, now) {
      assert o[j] == order[j];
    }
    if Passing(t, k, x, now) && !Blocked(t, order, |order|, x, now) {
      assert o[|order|] == k;
    }
  }

  lemma OrderSnoc(order: seq<Key>, k: Key)
    ensures (order + [k])[..|order| + 1] == order + [k] && order[..|order|] == order
    ensures forall c :: c in order + [k] <==> c in order || c == k
  {
  }

  lemma TracksElsewhere(t: Table, order: seq<Key>, s: Scan, k: Key, x: string, now: int, whiteExp: int,
      resolves: string -> bool)
    requires Tracks(t, order, s, x, now) && Address(k) != x
    ensures Tracks(t, order + [k], Visit(s, k, now, whiteExp, resolves), x, now)
  {
    PromotedSnoc(t, order, k, x, now);
    OrderSnoc(order, k);
  }

  lemma TracksAddress(t: Table, order: seq<Key>, s: Scan, x: string, now: int, whiteExp: int, resolves: string -> bool)
    requires Counted(t) && Tracks(t, order, s, x, now) && Ip(x) !in order
    ensures Tracks(t, order + [Ip(x)], Visit(s, Ip(x), now, whiteExp, resolves), x, now)
  {
    PromotedSnoc(t, order, Ip(x), x, now);
    OrderSnoc(order, Ip(x));
  }

  lemma TracksTuple(t: Table, order: seq<Key>, s: Scan, u: Tuple, now: int, whiteExp: int, resolves: string -> bool)
    requires Counted(t) && Tracks(t, order, s, u.ip, now) && Key.Grey(u) !in order
    ensures Tracks(t, order + [Key.Grey(u)], Visit(s, Key.Grey(u), now, whiteExp, resolves), u.ip, now)
  {
    PromotedSnoc(t, order, Key.Grey(u), u.ip, now);
    OrderSnoc(order, Key.Grey(u));
  }

  lemma {:induction false} ScanTracks(t: Table, order: seq<Key>, x: string, now: int, whiteExp: int,
      resolves: string -> bool)
    requires Counted(t) && Distinct(order)
    ensures Tracks(t, order, VisitAll(t, order, now, whiteExp, resolves), x, now)
  {
    if order != [] {
      var n := |order| - 1;
      var o, k := order[..n], order[n];
      ScanTracks(t, o, x, now, whiteExp, resolves);
      var s := VisitAll(t, o, now, whiteExp, resolves);
      assert o + [k] == order;
      if Address(k) != x {
        TracksElsewhere(t, o, s, k, x, now, whiteExp, resolves);
      } else if k.Ip? {
        TracksAddress(t, o, s, x, now, whiteExp, resolves);
      } else {
        TracksTuple(t, o, s, k.tuple, now, whiteExp, resolves);
      }
    }
  }

  // ---------------------------------------------------------------- what the cursor scan lists

  /** Whatever the cursor order, no address is listed both as white and as trapped. */
  lemma WhiteAndTrappedDisjoint(t: Table, order: seq<Key>, x: string, now: int, whiteExp: int, resolves: string -> bool)
    requires Counted(t) && CursorOrder(t, order)
    ensures var s := VisitAll(t, order, now, whiteExp, resolves); !(InWhite(s, x) && x in s.trapped)
  {
    ScanTracks(t, order, x, now, whiteExp, resolves);
  }

  // ---------------------------------------------------------------- what the SQL scan lists

  /** The update comes by every row that it selects. */
  ghost predicate RowOrder(t: Table, rows: seq<Key>) {
    forall k :: k in t ==> k in rows
  }

  /** The rows of address `x` after the update has come by `rows`. */
  ghost predicate UpdateTracks(l: Table, rows: seq<Key>, u: Table, x: string, now: int) {
    && (Ip(x) in l ==> Ip(x) in u && u[Ip(x)] == l[Ip(x)])
    && (Ip(x) !in l ==> (Ip(x) in u <==> exists k :: k in rows && Selected(l, k, now) && k.tuple.ip == x))
    && (Ip(x) !in l && Ip(x) in u ==> u[Ip(x)].pcount >= 0)
    && (forall v: Tuple :: v.ip == x && Key.Grey(v) in u ==> Key.Grey(v) in l && u[Key.Grey(v)] == l[Key.Grey(v)])
    && (forall v: Tuple :: v.ip == x && Key.Grey(v) in l && (Key.Grey(v) !in rows || !Selected(l, Key.Grey(v), now)) ==>
          Key.Grey(v) in u)
  }

  lemma {:induction false} UpdatedTracks(l: Table, rows: seq<Key>, x: string, now: int, whiteExp: int)
    requires Counted(l)
    ensures UpdateTracks(l, rows, Updated(l, rows, now, whiteExp), x, now)
  {
    if rows != [] {
      var n := |rows| - 1;
      var r, k := rows[..n], rows[n];
      assert rows == r + [k];
      UpdatedTracks(l, r, x, now, whiteExp);
      if Ip(x) in l {
        assert x == Address(Ip(x)) && x in AddressesOf(l);
      }
      assert k in rows;
    }
  }

  /** The addresses that block the update. */
  lemma BlockedAddresses(t: Table, x: string, now: int)
    ensures x in AddressesOf(Unexpired(t, now)) <==> Live(t, Ip(x), now) || SomeBare(t, x, now)
  {
    var l := Unexpired(t, now);
    if x in AddressesOf(l) {
      var k :| k in l && AddressRow(k) && Address(k) == x;
      assert k == Ip(x) || Bare(t, k, x, now);
    }
    if Live(t, Ip(x), now) {
      assert Ip(x) in l && AddressRow(Ip(x)) && Address(Ip(x)) == x;
    }
    if k :| Bare(t, k, x, now) {
      assert k in l && AddressRow(k) && Address(k) == x;
    }
  }

  /** A tuple that names neither sender nor recipient stays and is listed whatever its pass time, an address row too;
      else passing tuples that name both are listed. */
  lemma SqlLists(t: Table, rows: seq<Key>, x: string, now: int, whiteExp: int)
    requires Counted(t) && RowOrder(t, rows)
    ensures var u := SqlTable(t, rows, now, whiteExp);
      && (x in AddressesWhere(u, false) <==>
            || (Live(t, Ip(x), now) && t[Ip(x)].pcount >= 0)
            || SomeBare(t, x, now)
            || (!Live(t, Ip(x), now) && SomeNamedPassing(t, x, now)))
      && (x in AddressesWhere(u, true) <==> Live(t, Ip(x), now) && TrapRow(t, x))
  {
    var l := Unexpired(t, now);
    var u := Updated(l, rows, now, whiteExp);
    UpdatedTracks(l, rows, x, now, whiteExp);
    BlockedAddresses(t, x, now);
    SqlWhite(l, u, rows, x, now);
    SqlTrapped(l, u, rows, x, now);
    forall k ensures Bare(t, k, x, now) <==> Bare(l, k, x, now) {
    }
    if !Live(t, Ip(x), now) && !SomeBare(t, x, now) {
      forall k ensures Passing(t, k, x, now) && k.tuple.from != "" && k.tuple.to != ""
                       <==> Selected(l, k, now) && k.tuple.ip == x
      {
      }
      if SomeNamedPassing(t, x, now) {
        var k :| Passing(t, k, x, now) && k.tuple.from != "" && k.tuple.to != "";
        assert Selected(l, k, now) && k in rows;
      }
    }
  }

  lemma SqlWhite(l: Table, u: Table, rows: seq<Key>, x: string, now: int)
    requires Counted(l) && UpdateTracks(l, rows, u, x, now) && forall k :: k in l ==> l[k].expire > now
    ensures x in AddressesWhere(u, false) <==> (Ip(x) in u && u[Ip(x)].pcount >= 0) || SomeBare(l, x, now)
  {
    if x in AddressesWhere(u, false) {
      var k :| k in u && AddressRow(k) && Address(k) == x && u[k].pcount >= 0;
      assert k == Ip(x) || Bare(l, k, x, now);
    }
    if Ip(x) in u && u[Ip(x)].pcount >= 0 {
      assert AddressRow(Ip(x)) && Address(Ip(x)) == x;
    }
    if k :| Bare(l, k, x, now) {
      assert k in l && !Selected(l, k, now) && k == Key.Grey(k.tuple);
      assert k in u && AddressRow(k) && Address(k) == x;
    }
  }

  lemma SqlTrapped(l: Table, u: Table, rows: seq<Key>, x: string, now: int)
    requires Counted(l) && UpdateTracks(l, rows, u, x, now)
    ensures x in AddressesWhere(u, true) <==> Ip(x) in l && l[Ip(x)].pcount < 0
  {
    forall k | k in u && Address(k) == x && u[k].pcount < 0 ensures k == Ip(x) {
      match k
      case Ip(_) =>
      case Grey(v) => assert false;
    }
    if Ip(x) in l && l[Ip(x)].pcount < 0 {
      assert AddressRow(Ip(x)) && Address(Ip(x)) == x;
    }
  }

  // ---------------------------------------------------------------- agreement

  ghost predicate SameLists(t: Table, order: seq<Key>, rows: seq<Key>, now: int, whiteExp: int,
      resolves: string -> bool) {
    var s := VisitAll(t, order, now, whiteExp, resolves);
    var u := SqlTable(t, rows, now, whiteExp);
    forall x :: (InWhite(s, x) <==> x in AddressesWhere(u, false)) && (x in s.trapped <==> x in AddressesWhere(u, true))
  }

  /** A white row whose pass time is still to come, with no tuple of its address to bring it forward: only the
      SQL scan lists it. */
  ghost predicate EarlyWhite(t: Table, x: string, now: int) {
    Live(t, Ip(x), now) && t[Ip(x)].pcount >= 0 && t[Ip(x)].pass > now && !SomePassing(t, x, now)
  }

  /** An expired trap row together with a passing tuple: the cursor scan ignores the tuple if it comes by it first. */
  ghost predicate StaleTrap(t: Table, x: string, now: int) {
    TrapRow(t, x) && !Live(t, Ip(x), now) && SomePassing(t, x, now)
  }

  /** A tuple that names neither sender nor recipient counts as a white address row for the SQL scan, even beside a trap
      row and before its pass time. */
  ghost predicate BareListed(t: Table, x: string, now: int) {
    && SomeBare(t, x, now) && !(Live(t, Ip(x), now) && t[Ip(x)].pcount >= 0)
    && ((TrapRow(t, x) && Live(t, Ip(x), now)) || !SomePassing(t, x, now))
  }

  /** The only passing tuples name one of the two: the cursor scan alone takes them. */
  ghost predicate HalfNamed(t: Table, x: string, now: int) {
    && !Live(t, Ip(x), now) && !SomeBare(t, x, now)
    && SomePassing(t, x, now) && !SomeNamedPassing(t, x, now)
  }

  ghost predicate Disputed(t: Table, x: string, now: int) {
    EarlyWhite(t, x, now) || StaleTrap(t, x, now) || BareListed(t, x, now) || HalfNamed(t, x, now)
  }

  ghost predicate Agreeable(t: Table, now: int) {
    forall x :: !Disputed(t, x, now)
  }

  lemma AgreeAt(t: Table, order: seq<Key>, rows: seq<Key>, x: string, now: int, whiteExp: int, resolves: string -> bool)
    requires Counted(t) && CursorOrder(t, order) && RowOrder(t, rows) && !Disputed(t, x, now)
    ensures var s := VisitAll(t, order, now, whiteExp, resolves);
            var u := SqlTable(t, rows, now, whiteExp);
            (InWhite(s, x) <==> x in AddressesWhere(u, false)) && (x in s.trapped <==> x in AddressesWhere(u, true))
  {
    ScanTracks(t, order, x, now, whiteExp, resolves);
    SqlLists(t, rows, x, now, whiteExp);
    if k :| Passing(t, k, x, now) {
      var j :| 0 <= j < |order| && order[j] == k;
      assert Promoted(t, order, x, now) || Blocked(t, order, j, x, now);
    }
  }

  lemma {:induction false} Enumerate(keys: set<Key>) returns (o: seq<Key>)
    ensures Distinct(o) && forall k :: k in o <==> k in keys
  {
    o := [];
    var rest := keys;
    while rest != {}
      invariant Distinct(o) && rest <= keys && forall k :: k in o <==> k in keys - rest
      decreases rest
    {
      var k :| k in rest;
      assert k !in o;
      o, rest := o + [k], rest - {k};
    }
  }

  /** With the address row last a stale trap blocks to the end. */
  lemma LastMisses(t: Table, others: seq<Key>, x: string, now: int, whiteExp: int, resolves: string -> bool)
    requires Counted(t) && Distinct(others + [Ip(x)]) && Ip(x) !in others
    requires EarlyWhite(t, x, now) || StaleTrap(t, x, now) || BareListed(t, x, now)
    ensures !InWhite(VisitAll(t, others + [Ip(x)], now, whiteExp, resolves), x)
  {
    hide VisitAll;
    var order := others + [Ip(x)];
    ScanTracks(t, order, x, now, whiteExp, resolves);
    forall j | 0 <= j < |order| && Passing(t, order[j], x, now) ensures Blocked(t, order, j, x, now) {
      assert order[..j] == others[..j];
    }
  }

  lemma UnblockedTakes(t: Table, order: seq<Key>, k: Key, x: string, now: int, whiteExp: int, resolves: string -> bool)
    requires Counted(t) && CursorOrder(t, order) && Passing(t, k, x, now)
    requires !TrapRow(t, x) || (order[0] == Ip(x) && !Live(t, Ip(x), now))
    ensures InWhite(VisitAll(t, order, now, whiteExp, resolves), x)
  {
    hide VisitAll;
    ScanTracks(t, order, x, now, whiteExp, resolves);
    var j :| 0 <= j < |order| && order[j] == k;
    if TrapRow(t, x) {
      assert order[..j][0] == Ip(x);
    }
    assert !Blocked(t, order, j, x, now);
  }

  /** An order in which the two scans differ at `x`: the address row comes first when that makes the cursor scan alone
      list it, else last. */
  lemma DisagreeAt(t: Table, x: string, now: int, whiteExp: int, resolves: string -> bool) returns (order: seq<Key>)
    requires Counted(t) && Disputed(t, x, now)
    ensures CursorOrder(t, order) && RowOrder(t, order) && !SameLists(t, order, order, now, whiteExp, resolves)
  {
    hide VisitAll, Updated, AddressesWhere, Passing, Bare;
    var others := Enumerate(t.Keys - {Ip(x)});
    if SomePassing(t, x, now) && !Live(t, Ip(x), now) && !SomeBare(t, x, now) && !SomeNamedPassing(t, x, now) {
      order := [Ip(x)] + others;
      var k :| Passing(t, k, x, now);
      UnblockedTakes(t, order, k, x, now, whiteExp, resolves);
    } else {
      order := others + [Ip(x)];
      LastMisses(t, others, x, now, whiteExp, resolves);
    }
    SqlLists(t, order, x, now, whiteExp);
  }

  /** The cursor scan and the SQL scan list the same white and the same trapped addresses, in every order they may come
      by the rows, exactly when no address is disputed. */
  lemma ScansAgreeIff(t: Table, now: int, whiteExp: int, resolves: string -> bool)
    requires Counted(t)
    ensures Agreeable(t, now) <==>
              forall order, rows :: CursorOrder(t, order) && RowOrder(t, rows) ==>
                SameLists(t, order, rows, now, whiteExp, resolves)
  {
    if Agreeable(t, now) {
      forall order, rows | CursorOrder(t, order) && RowOrder(t, rows)
        ensures SameLists(t, order, rows, now, whiteExp, resolves)
      {
        forall x ensures
          var s := VisitAll(t, order, now, whiteExp, resolves);
          var u := SqlTable(t, rows, now, whiteExp);
          (InWhite(s, x) <==> x in AddressesWhere(u, false)) && (x in s.trapped <==> x in AddressesWhere(u, true))
        {
          AgreeAt(t, order, rows, x, now, whiteExp, resolves);
        }
      }
    } else {
      var x :| Disputed(t, x, now);
      var order := DisagreeAt(t, x, now, whiteExp, resolves);
    }
  }

  /** Where every tuple names sender and recipient only an early white row and a stale trap are disputed. */
  lemma NamedDisputes(t: Table, x: string, now: int)
    requires Named(t)
    ensures Disputed(t, x, now) <==> EarlyWhite(t, x, now) || StaleTrap(t, x, now)
  {
  }
}
