/** Which rows a database scan leaves behind, and what is in them. */
module GreyRows {
  import opened Grey
  import opened GreyScans

  /** The data of an unexpired tuple of address `x` whose pass time has come, with the expiry of a white address. */
  ghost predicate WhiteFrom(t: Table, x: string, d: Data, now: int, whiteExp: int) {
    exists k :: Passing(t, k, x, now) && d == t[k].(expire := now + whiteExp)
  }

  /** The cursor came by this tuple while its address did not count as trapped. */
  ghost predicate TurnedWhite(t: Table, order: seq<Key>, u: Tuple, now: int) {
    exists j :: 0 <= j < |order| && order[j] == Key.Grey(u) && Passing(t, Key.Grey(u), u.ip, now)
                && !Blocked(t, order, j, u.ip, now)
  }

  /** The rows of address `x` after a part of a scan. */
  ghost predicate Leaves(t: Table, order: seq<Key>, s: Table, x: string, now: int, whiteExp: int) {
    && (Ip(x) in s ==>
          WhiteFrom(t, x, s[Ip(x)], now, whiteExp)
          || (Ip(x) in t && s[Ip(x)] == t[Ip(x)] && (Ip(x) in order ==> Live(t, Ip(x), now))))
    && (Promoted(t, order, x, now) && whiteExp > 0 ==> Ip(x) in s && WhiteFrom(t, x, s[Ip(x)], now, whiteExp))
    && (!Promoted(t, order, x, now) ==>
          (Ip(x) in s <==> Ip(x) in t && (Live(t, Ip(x), now) || Ip(x) !in order))
          && (Ip(x) in s ==> s[Ip(x)] == t[Ip(x)]))
    && (forall u: Tuple :: u.ip == x ==>
          (Key.Grey(u) in s <==> Key.Grey(u) in t && (Key.Grey(u) in order ==> Live(t, Key.Grey(u), now))
                                 && !TurnedWhite(t, order, u, now))
          && (Key.Grey(u) in s ==> s[Key.Grey(u)] == t[Key.Grey(u)]))
  }

  lemma TurnedWhiteSnoc(t: Table, order: seq<Key>, k: Key, u: Tuple, now: int)
    ensures TurnedWhite(t, order + [k], u, now) <==>
              TurnedWhite(t, order, u, now)
              || (k == Key.Grey(u) && Passing(t, k, u.ip, now) && !Blocked(t, order, |order|, u.ip, now))
  {
    var o := order + [k];
    forall j | 0 <= j <= |order| ensures Blocked(t, o, j, u.ip, now) == Blocked(t, order, j, u.ip, now) {
      assert o[..j] == order[..j];
    }
    if j :| 0 <= j < |order| && order[j] == Key.Grey(u) && Passing(t, Key.Grey(u), u.ip, now)
            && !Blocked(t, order, j, u.ip, now)
    {
      assert o[j] == order[j];
    }
    if k == Key.Grey(u) {
      assert o[|order|] == k;
    }
  }

  lemma LeavesElsewhere(t: Table, order: seq<Key>, s: Scan, k: Key, x: string, now: int, whiteExp: int,
      resolves: string -> bool)
    requires Leaves(t, order, s.table, x, now, whiteExp) && Address(k) != x
    ensures Leaves(t, order + [k], Visit(s, k, now, whiteExp, resolves).table, x, now, whiteExp)
  {
    PromotedSnoc(t, order, k, x, now);
    OrderSnoc(order, k);
    forall u: Tuple | u.ip == x ensures TurnedWhite(t, order + [k], u, now) == TurnedWhite(t, order, u, now) {
      TurnedWhiteSnoc(t, order, k, u, now);
    }
    hide WhiteFrom, TurnedWhite, Promoted;
  }

  lemma LeavesAddress(t: Table, order: seq<Key>, s: Scan, x: string, now: int, whiteExp: int, resolves: string -> bool)
    requires Counted(t) && Tracks(t, order, s, x, now) && Leaves(t, order, s.table, x, now, whiteExp)
    requires Ip(x) !in order
    ensures Leaves(t, order + [Ip(x)], Visit(s, Ip(x), now, whiteExp, resolves).table, x, now, whiteExp)
  {
    PromotedSnoc(t, order, Ip(x), x, now);
    OrderSnoc(order, Ip(x));
    forall u: Tuple | u.ip == x ensures TurnedWhite(t, order + [Ip(x)], u, now) == TurnedWhite(t, order, u, now) {
      TurnedWhiteSnoc(t, order, Ip(x), u, now);
    }
    hide TurnedWhite, Promoted;
  }

  lemma LeavesTuple(t: Table, order: seq<Key>, s: Scan, u: Tuple, now: int, whiteExp: int, resolves: string -> bool)
    requires Counted(t) && Tracks(t, order, s, u.ip, now) && Leaves(t, order, s.table, u.ip, now, whiteExp)
    requires Key.Grey(u) !in order
    ensures Leaves(t, order + [Key.Grey(u)], Visit(s, Key.Grey(u), now, whiteExp, resolves).table, u.ip, now, whiteExp)
  {
    PromotedSnoc(t, order, Key.Grey(u), u.ip, now);
    OrderSnoc(order, Key.Grey(u));
    forall v: Tuple | v.ip == u.ip
      ensures TurnedWhite(t, order + [Key.Grey(u)], v, now) <==>
                TurnedWhite(t, order, v, now)
                || (u == v && Passing(t, Key.Grey(u), u.ip, now) && !Blocked(t, order, |order|, u.ip, now))
    {
      TurnedWhiteSnoc(t, order, Key.Grey(u), v, now);
    }
    hide TurnedWhite, Promoted;
  }

  lemma {:induction false} ScanLeaves(t: Table, order: seq<Key>, x: string, now: int, whiteExp: int,
      resolves: string -> bool)
    requires Counted(t) && Distinct(order)
    ensures Leaves(t, order, VisitAll(t, order, now, whiteExp, resolves).table, x, now, whiteExp)
  {
    if order != [] {
      var n := |order| - 1;
      var o, k := order[..n], order[n];
      ScanLeaves(t, o, x, now, whiteExp, resolves);
      ScanTracks(t, o, x, now, whiteExp, resolves);
      var s := VisitAll(t, o, now, whiteExp, resolves);
      assert o + [k] == order;
      hide Leaves, Tracks, Visit;
      if Address(k) != x {
        LeavesElsewhere(t, o, s, k, x, now, whiteExp, resolves);
      } else if k.Ip? {
        LeavesAddress(t, o, s, x, now, whiteExp, resolves);
      } else {
        LeavesTuple(t, o, s, k.tuple, now, whiteExp, resolves);
      }
    }
  }

  /** After a cursor scan, in whatever order: a row of address `x` is the unexpired one of before or has the data of a
      passing tuple and the expiry of a white address, the latter whenever a passing tuple was met while `x` did not
      count as trapped; the tuples left are the unexpired ones that were not taken so. Nothing else is changed. */
  lemma ScanRows(t: Table, order: seq<Key>, x: string, now: int, whiteExp: int, resolves: string -> bool)
    requires Counted(t) && CursorOrder(t, order)
    ensures var s := VisitAll(t, order, now, whiteExp, resolves).table;
            && (Ip(x) in s ==> WhiteFrom(t, x, s[Ip(x)], now, whiteExp)
                               || (Live(t, Ip(x), now) && s[Ip(x)] == t[Ip(x)]))
            && (Promoted(t, order, x, now) && whiteExp > 0 ==>
                  Ip(x) in s && WhiteFrom(t, x, s[Ip(x)], now, whiteExp))
            && (!Promoted(t, order, x, now) ==>
                  (Ip(x) in s <==> Live(t, Ip(x), now)) && (Ip(x) in s ==> s[Ip(x)] == t[Ip(x)]))
            && (forall u: Tuple :: u.ip == x ==>
                  (Key.Grey(u) in s <==> Live(t, Key.Grey(u), now) && !TurnedWhite(t, order, u, now))
                  && (Key.Grey(u) in s ==> s[Key.Grey(u)] == t[Key.Grey(u)]))
  {
    ScanLeaves(t, order, x, now, whiteExp, resolves);
    hide VisitAll, WhiteFrom, Promoted, TurnedWhite;
  }

  /** White addresses with a colon that the resolver accepts go to the list of IPv6 addresses, all others to the other
      list. */
  lemma {:induction false} ScanFamilies(t: Table, order: seq<Key>, now: int, whiteExp: int, resolves: string -> bool)
    ensures var s := VisitAll(t, order, now, whiteExp, resolves);
            && (forall a :: a in s.white6 ==> HasColon(a) && resolves(a))
            && (forall a :: a in s.white ==> !(HasColon(a) && resolves(a)))
  {
    if order != [] {
      ScanFamilies(t, order[..|order| - 1], now, whiteExp, resolves);
    }
  }

  // ---------------------------------------------------------------- the SQL scan

  /** A row that the update turns into the address row of `x`. */
  ghost predicate Turned(l: Table, k: Key, x: string, now: int) {
    Selected(l, k, now) && k.tuple.ip == x
  }

  /** The rows of address `x` after a part of the update. */
  ghost predicate UpdateLeaves(l: Table, rows: seq<Key>, u: Table, x: string, now: int, whiteExp: int) {
    && (Ip(x) in u && Ip(x) !in l ==>
          exists k :: Turned(l, k, x, now) && u[Ip(x)] == l[k].(expire := now + whiteExp))
    && (forall v: Tuple :: v.ip == x ==>
          (Key.Grey(v) in u <==> Key.Grey(v) in l && !(Key.Grey(v) in rows && Selected(l, Key.Grey(v), now))))
  }

  lemma {:induction false} UpdatedLeaves(l: Table, rows: seq<Key>, x: string, now: int, whiteExp: int)
    requires Counted(l)
    ensures UpdateLeaves(l, rows, Updated(l, rows, now, whiteExp), x, now, whiteExp)
  {
    if rows != [] {
      var n := |rows| - 1;
      var r, k := rows[..n], rows[n];
      assert rows == r + [k];
      UpdatedLeaves(l, r, x, now, whiteExp);
      UpdatedTracks(l, r, x, now, whiteExp);
      hide AddressesOf;
      var u := Updated(l, r, now, whiteExp);
      if Turned(l, k, x, now) && k in u {
        assert k == Key.Grey(k.tuple) && u[k] == l[k];
      }
    }
  }

  /** The same of the SQL scan, which takes the tuples that name both sender and recipient, of addresses without any
      unexpired address row, those that name neither included. */
  lemma SqlRows(t: Table, rows: seq<Key>, x: string, now: int, whiteExp: int)
    requires Counted(t) && RowOrder(t, rows)
    ensures var u := SqlTable(t, rows, now, whiteExp);
            var takes := !Live(t, Ip(x), now) && !SomeBare(t, x, now);
            && (Ip(x) in u <==> Live(t, Ip(x), now) || (takes && SomeNamedPassing(t, x, now)))
            && (Ip(x) in u ==> if Live(t, Ip(x), now) then u[Ip(x)] == t[Ip(x)]
                               else WhiteFrom(t, x, u[Ip(x)], now, whiteExp))
            && (forall v: Tuple :: v.ip == x ==>
                  (Key.Grey(v) in u <==>
                     (Live(t, Key.Grey(v), now)
                      && !(takes && v.from != "" && v.to != "" && Passing(t, Key.Grey(v), x, now))))
                  && (Key.Grey(v) in u ==> u[Key.Grey(v)] == t[Key.Grey(v)]))
  {
    var l := Unexpired(t, now);
    UpdatedTracks(l, rows, x, now, whiteExp);
    UpdatedLeaves(l, rows, x, now, whiteExp);
    BlockedAddresses(t, x, now);
    var takes := !Live(t, Ip(x), now) && !SomeBare(t, x, now);
    forall k ensures Turned(l, k, x, now) <==>
                     takes && Passing(t, k, x, now) && k.tuple.from != "" && k.tuple.to != ""
    {
    }
    hide AddressesOf, Updated, SomeBare, Selected;
    var u := SqlTable(t, rows, now, whiteExp);
    if Ip(x) in u && !Live(t, Ip(x), now) {
      var k :| Turned(l, k, x, now) && u[Ip(x)] == l[k].(expire := now + whiteExp);
      assert Passing(t, k, x, now);
    }
    if takes && SomeNamedPassing(t, x, now) {
      var k :| Passing(t, k, x, now) && k.tuple.from != "" && k.tuple.to != "";
      assert Turned(l, k, x, now) && k in rows;
    }
  }
}
