/** A stretch of memory cut into consecutive blocks, as both heaps of mm/allocator.c leave it. */
module Tiling {
  datatype Kind = Live | Free | Lost

  datatype Tile = Tile(at: nat, size: nat, kind: Kind)

  /** The tiles follow one another without gap or overlap from lo to hi. */
  ghost predicate Tiles(ts: seq<Tile>, lo: nat, hi: nat) {
    if ts == [] then lo == hi
    else ts[0].at == lo && ts[0].size > 0 && Tiles(ts[1..], lo + ts[0].size, hi)
  }

  function Sum(ts: seq<Tile>, k: Kind): nat {
    if ts == [] then 0 else (if ts[0].kind == k then ts[0].size else 0) + Sum(ts[1..], k)
  }

  lemma {:induction false} TilesConcat(a: seq<Tile>, b: seq<Tile>, lo: nat, mid: nat, hi: nat)
    requires Tiles(a, lo, mid) && Tiles(b, mid, hi)
    ensures Tiles(a + b, lo, hi)
    decreases |a|
  {
    if a == [] {
      assert a + b == b;
    } else {
      assert (a + b)[1..] == a[1..] + b;
      TilesConcat(a[1..], b, lo + a[0].size, mid, hi);
    }
  }

  lemma {:induction false} TilesSplit(ts: seq<Tile>, i: nat, lo: nat, hi: nat)
    requires Tiles(ts, lo, hi) && i < |ts|
    ensures Tiles(ts[..i], lo, ts[i].at) && ts[i].size > 0
    ensures Tiles(ts[i + 1..], ts[i].at + ts[i].size, hi)
    decreases i
  {
    if i == 0 {
    } else {
      TilesSplit(ts[1..], i - 1, lo + ts[0].size, hi);
      assert ts[1..][..i - 1] == ts[..i][1..];
      assert ts[1..][i..] == ts[i + 1..];
    }
  }

  lemma {:induction false} TilesOrdered(ts: seq<Tile>, lo: nat, hi: nat, i: nat, j: nat)
    requires Tiles(ts, lo, hi) && i < j < |ts|
    ensures lo <= ts[i].at && ts[i].size > 0 && ts[i].at + ts[i].size <= ts[j].at
    ensures ts[j].size > 0 && ts[j].at + ts[j].size <= hi
    decreases j
  {
    if i > 0 {
      TilesOrdered(ts[1..], lo + ts[0].size, hi, i - 1, j - 1);
    } else {
      TileInside(ts[1..], lo + ts[0].size, hi, j - 1);
    }
  }

  lemma {:induction false} TileInside(ts: seq<Tile>, lo: nat, hi: nat, i: nat)
    requires Tiles(ts, lo, hi) && i < |ts|
    ensures lo <= ts[i].at && ts[i].size > 0 && ts[i].at + ts[i].size <= hi
    decreases i
  {
    if i > 0 {
      TileInside(ts[1..], lo + ts[0].size, hi, i - 1);
    } else {
      TilesGrow(ts[1..], lo + ts[0].size, hi);
    }
  }

  lemma {:induction false} TilesGrow(ts: seq<Tile>, lo: nat, hi: nat)
    requires Tiles(ts, lo, hi)
    ensures lo <= hi
    decreases |ts|
  {
    if ts == [] {
    } else {
      TilesGrow(ts[1..], lo + ts[0].size, hi);
    }
  }

  lemma {:induction false} SumConcat(a: seq<Tile>, b: seq<Tile>, k: Kind)
    ensures Sum(a + b, k) == Sum(a, k) + Sum(b, k)
    decreases |a|
  {
    if a == [] {
      assert a + b == b;
    } else {
      assert (a + b)[1..] == a[1..] + b;
      SumConcat(a[1..], b, k);
    }
  }

  /** Live, free and lost bytes together fill the stretch. */
  lemma {:induction false} SumsFill(ts: seq<Tile>, lo: nat, hi: nat)
    requires Tiles(ts, lo, hi)
    ensures lo + Sum(ts, Live) + Sum(ts, Free) + Sum(ts, Lost) == hi
    decreases |ts|
  {
    if ts == [] {
    } else {
      SumsFill(ts[1..], lo + ts[0].size, hi);
    }
  }

  /** Tile i cut into the tiles of mid. */
  function Recut(ts: seq<Tile>, i: nat, mid: seq<Tile>): seq<Tile>
    requires i < |ts|
  {
    ts[..i] + mid + ts[i + 1..]
  }

  lemma RecutTiles(ts: seq<Tile>, i: nat, mid: seq<Tile>, lo: nat, hi: nat)
    requires Tiles(ts, lo, hi) && i < |ts| && Tiles(mid, ts[i].at, ts[i].at + ts[i].size)
    ensures Tiles(Recut(ts, i, mid), lo, hi)
  {
    TilesSplit(ts, i, lo, hi);
    TilesConcat(ts[..i], mid, lo, ts[i].at, ts[i].at + ts[i].size);
    TilesConcat(ts[..i] + mid, ts[i + 1..], lo, ts[i].at + ts[i].size, hi);
  }

  lemma RecutSum(ts: seq<Tile>, i: nat, mid: seq<Tile>, k: Kind)
    requires i < |ts|
    ensures Sum(Recut(ts, i, mid), k) + Sum([ts[i]], k) == Sum(ts, k) + Sum(mid, k)
  {
    assert ts == ts[..i] + [ts[i]] + ts[i + 1..];
    SumConcat(ts[..i] + [ts[i]], ts[i + 1..], k);
    SumConcat(ts[..i], [ts[i]], k);
    SumConcat(ts[..i] + mid, ts[i + 1..], k);
    SumConcat(ts[..i], mid, k);
  }

  /** Every tile but tile i keeps clear of it. */
  lemma OthersClear(ts: seq<Tile>, i: nat, lo: nat, hi: nat, t: Tile)
    requires Tiles(ts, lo, hi) && i < |ts| && t in ts
    ensures t == ts[i] || (t.size > 0 && (t.at + t.size <= ts[i].at || ts[i].at + ts[i].size <= t.at))
  {
    var j :| 0 <= j < |ts| && ts[j] == t;
    if j < i {
      TilesOrdered(ts, lo, hi, j, i);
    } else if i < j {
      TilesOrdered(ts, lo, hi, i, j);
    }
  }

  /** The tiles after a recut are those of mid and the old ones other than tile i. */
  lemma RecutMembers(ts: seq<Tile>, i: nat, mid: seq<Tile>, lo: nat, hi: nat, t: Tile)
    requires Tiles(ts, lo, hi) && i < |ts|
    ensures t in Recut(ts, i, mid) <==> t in mid || (t in ts && t != ts[i])
  {
    if t in ts && t != ts[i] {
      var j :| 0 <= j < |ts| && ts[j] == t;
      assert t in ts[..i] || t in ts[i + 1..] by {
        if j < i {
          assert ts[..i][j] == t;
        } else {
          assert ts[i + 1..][j - i - 1] == t;
        }
      }
    }
    if t in ts[..i] {
      var j :| 0 <= j < i && ts[..i][j] == t;
      TilesOrdered(ts, lo, hi, j, i);
    }
    if t in ts[i + 1..] {
      var j :| 0 <= j < |ts| - i - 1 && ts[i + 1..][j] == t;
      TilesOrdered(ts, lo, hi, i, i + 1 + j);
    }
  }
}
