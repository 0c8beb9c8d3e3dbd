/** ORDER BY ... LIMIT: which rows a query returns, and in which order. Ties may come in any order. */
module Queries {
  import opened Prelude
  import opened Keys
  import opened Protocol

  /** Sort keys of a row, compared from left to right, smaller first. */
  datatype Rank = Rank(first: int, second: int, third: int)

  predicate AtMost(a: Rank, b: Rank) {
    || a.first < b.first
    || (a.first == b.first && a.second < b.second)
    || (a.first == b.first && a.second == b.second && a.third <= b.third)
  }

  /** The answer of a query over candidate rows: distinct, sorted, as many as the limit allows, and none left out
      that should have come before one returned. */
  ghost predicate OrderedLimit(candidates: map<Uuid, Rank>, limit: nat, rows: seq<Uuid>) {
    && Distinct(rows)
    && (forall i :: 0 <= i < |rows| ==> rows[i] in candidates)
    && |rows| == Min(limit, |candidates|)
    && (forall i, j :: 0 <= i < j < |rows| ==> AtMost(candidates[rows[i]], candidates[rows[j]]))
    && (forall i, id :: 0 <= i < |rows| && id in candidates && id !in rows
          ==> AtMost(candidates[rows[i]], candidates[id]))
  }

  predicate IsFirst(candidates: map<Uuid, Rank>, id: Uuid) {
    id in candidates && forall other | other in candidates :: AtMost(candidates[id], candidates[other])
  }

  lemma {:induction false} FirstExists(candidates: map<Uuid, Rank>)
    requires candidates != map[]
    ensures exists id :: IsFirst(candidates, id)
    decreases |candidates|
  {
    var id :| id in candidates;
    var rest := candidates - {id};
    if rest == map[] {
      assert forall other | other in candidates :: other == id || other in rest;
      assert IsFirst(candidates, id);
    } else {
      FirstExists(rest);
      var best :| IsFirst(rest, best);
      FirstOfOneMore(candidates, id, best);
    }
  }

  lemma FirstOfOneMore(candidates: map<Uuid, Rank>, id: Uuid, best: Uuid)
    requires id in candidates && IsFirst(candidates - {id}, best)
    ensures IsFirst(candidates, if AtMost(candidates[best], candidates[id]) then best else id)
  {
    forall other | other in candidates ensures other == id || AtMost(candidates[best], candidates[other]) {
      assert other == id || other in candidates - {id};
    }
  }

  /** The rows chosen so far and the candidates left. */
  ghost predicate Chosen(candidates: map<Uuid, Rank>, rest: map<Uuid, Rank>, rows: seq<Uuid>) {
    && Distinct(rows)
    && |rows| + |rest| == |candidates|
    && (forall id :: id in rest <==> id in candidates && id !in rows)
    && (forall id :: id in rest ==> rest[id] == candidates[id])
    && (forall i :: 0 <= i < |rows| ==> rows[i] in candidates)
    && (forall i, j :: 0 <= i < j < |rows| ==> AtMost(candidates[rows[i]], candidates[rows[j]]))
    && (forall i, id :: 0 <= i < |rows| && id in rest ==> AtMost(candidates[rows[i]], candidates[id]))
  }

  lemma ChosenLast(candidates: map<Uuid, Rank>, rest: map<Uuid, Rank>, rows: seq<Uuid>, id: Uuid, i: nat)
    requires Chosen(candidates, rest, rows) && id in rest && i < |rows|
    ensures rows[i] != id && rows[i] in candidates && id in candidates && AtMost(candidates[rows[i]], candidates[id])
  {
  }

  lemma ChooseNext(candidates: map<Uuid, Rank>, rest: map<Uuid, Rank>, rows: seq<Uuid>, id: Uuid)
    requires Chosen(candidates, rest, rows) && IsFirst(rest, id)
    ensures Chosen(candidates, rest - {id}, rows + [id])
  {
    var more := rows + [id];
    assert (rest - {id}).Keys == rest.Keys - {id};
    forall i, other | 0 <= i < |more| && other in rest - {id} ensures AtMost(candidates[more[i]], candidates[other]) {
      assert i < |rows| ==> more[i] == rows[i];
    }
    forall i, j | 0 <= i < j < |more| ensures AtMost(candidates[more[i]], candidates[more[j]]) && more[i] != more[j] {
      assert more[i] == rows[i];
      if j == |rows| {
        ChosenLast(candidates, rest, rows, id, i);
      } else {
        assert more[j] == rows[j];
      }
    }
  }

  /** The database's evaluation of such a query. */
  method Select(candidates: map<Uuid, Rank>, limit: nat) returns (rows: seq<Uuid>)
    ensures OrderedLimit(candidates, limit, rows)
  {
    rows := [];
    var rest := candidates;
    while |rows| < limit && rest != map[]
      invariant |rows| <= limit && Chosen(candidates, rest, rows)
      decreases limit - |rows|
    {
      FirstExists(rest);
      var id :| IsFirst(rest, id);
      ChooseNext(candidates, rest, rows, id);
      rows, rest := rows + [id], rest - {id};
    }
  }

  // The same for a sorted list of names. The collation is the database's: some total order.

  ghost predicate TotalOrder(atMost: (string, string) -> bool) {
    && (forall a, b :: atMost(a, b) || atMost(b, a))
    && (forall a, b, c :: atMost(a, b) && atMost(b, c) ==> atMost(a, c))
    && (forall a, b :: atMost(a, b) && atMost(b, a) ==> a == b)
  }

  predicate IsLeastName(names: set<string>, atMost: (string, string) -> bool, name: string) {
    name in names && forall other | other in names :: atMost(name, other)
  }

  lemma {:induction false} LeastNameExists(names: set<string>, atMost: (string, string) -> bool)
    requires names != {} && TotalOrder(atMost)
    ensures exists name :: IsLeastName(names, atMost, name)
    decreases |names|
  {
    var name :| name in names;
    if names == {name} {
      assert IsLeastName(names, atMost, name);
    } else {
      LeastNameExists(names - {name}, atMost);
      var best :| IsLeastName(names - {name}, atMost, best);
      var least' := if atMost(best, name) then best else name;
      forall other | other in names ensures atMost(least', other) {
        assert other == name || other in names - {name};
      }
      assert IsLeastName(names, atMost, least');
    }
  }

  /** The first names of a set in sorted order: as many as the limit allows, each before the next and before every
      name left out. */
  ghost predicate FirstNames(all: set<string>, limit: nat, atMost: (string, string) -> bool, names: seq<string>) {
    && Distinct(names) && (forall n :: n in names ==> n in all)
    && |names| == Min(limit, |all|)
    && (forall i, j :: 0 <= i < j < |names| ==> atMost(names[i], names[j]))
    && (forall i, n :: 0 <= i < |names| && n in all && n !in names ==> atMost(names[i], n))
  }

  /** The names taken so far and those left. */
  ghost predicate NamesTaken(all: set<string>, rest: set<string>, atMost: (string, string) -> bool,
                             names: seq<string>) {
    && Distinct(names) && |names| + |rest| == |all|
    && (forall n :: n in rest <==> n in all && n !in names)
    && (forall n :: n in names ==> n in all)
    && (forall i, j :: 0 <= i < j < |names| ==> atMost(names[i], names[j]))
    && (forall i, n :: 0 <= i < |names| && n in rest ==> atMost(names[i], n))
  }

  lemma TakeName(all: set<string>, rest: set<string>, atMost: (string, string) -> bool, names: seq<string>,
                 name: string)
    requires NamesTaken(all, rest, atMost, names) && IsLeastName(rest, atMost, name)
    ensures NamesTaken(all, rest - {name}, atMost, names + [name])
  {
    var more := names + [name];
    forall i, j | 0 <= i < j < |more| ensures atMost(more[i], more[j]) && more[i] != more[j] {
      assert more[i] == names[i] && names[i] in names;
    }
    forall n ensures n in more <==> n in names || n == name {
      if n in names {
        var i :| 0 <= i < |names| && names[i] == n;
        assert more[i] == n;
      }
      if n == name {
        assert more[|names|] == n;
      }
    }
  }

  /** Distinct members as many as the set has are all of them. */
  lemma {:induction false} DistinctCovers(s: seq<string>, all: set<string>)
    requires Distinct(s) && forall q :: q in s ==> q in all
    ensures |s| == |all| ==> forall q :: q in all ==> q in s
    ensures |s| <= |all|
    decreases |s|
  {
    if s != [] {
      var rest := s[1..];
      assert s == [s[0]] + rest && s[0] !in rest;
      DistinctCovers(rest, all - {s[0]});
    }
  }

  method SelectNames(all: set<string>, limit: nat, atMost: (string, string) -> bool) returns (names: seq<string>)
    requires TotalOrder(atMost)
    ensures FirstNames(all, limit, atMost, names)
  {
    names := [];
    var rest := all;
    while |names| < limit && rest != {}
      invariant |names| <= limit && NamesTaken(all, rest, atMost, names)
      decreases limit - |names|
    {
      LeastNameExists(rest, atMost);
      var name :| IsLeastName(rest, atMost, name);
      TakeName(all, rest, atMost, names, name);
      names, rest := names + [name], rest - {name};
    }
  }
}
