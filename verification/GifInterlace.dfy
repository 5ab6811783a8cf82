/** The rows of a GIF image on its screen: interlaced images come in four passes (appendix E of
    the GIF89a specification). */
module GifInterlace {
  import opened Bytes

  type Pixel = byte

  /** Where an image lies on the screen. */
  datatype Place = Place(top: nat, left: nat, height: nat, width: nat)

  const OFFSETS: seq<nat> := [0, 4, 2, 1]
  const JUMPS: seq<nat> := [8, 8, 4, 2]

  /** The rows from `row` on in steps of `jump`, inside an image of height `h`. */
  function Pass(row: nat, jump: nat, h: nat): seq<nat>
    requires jump > 0
    decreases h - row
  {
    if row >= h then [] else [row] + Pass(row + jump, jump, h)
  }

  /** The rows of the passes from pass `i` on. */
  function Passes(i: nat, h: nat): seq<nat>
    requires i <= 4
    decreases 4 - i
  {
    if i == 4 then [] else Pass(OFFSETS[i], JUMPS[i], h) + Passes(i + 1, h)
  }

  /** The image rows in the order in which the lines of the file fill them. An image that is not
      interlaced is read from its top row on the screen, up to its height. */
  function RowsRead(p: Place, interlace: bool): seq<nat> {
    if interlace then Passes(0, p.height) else Pass(0, 1, if p.height > p.top then p.height - p.top else 0)
  }

  // ----- Which line goes where

  lemma {:induction false} PassAt(row: nat, jump: nat, h: nat, k: nat)
    requires jump > 0
    ensures row + k * jump < h <==> k < |Pass(row, jump, h)|
    ensures k < |Pass(row, jump, h)| ==> Pass(row, jump, h)[k] == row + k * jump
    decreases k
  {
    if k > 0 {
      assert row + k * jump == row + jump + (k - 1) * jump;
      if row < h {
        PassAt(row + jump, jump, h, k - 1);
      }
    }
  }

  lemma PassLength(row: nat, jump: nat, h: nat, n: nat)
    requires jump > 0 && row + n * jump >= h && (n > 0 ==> row + (n - 1) * jump < h)
    ensures |Pass(row, jump, h)| == n
  {
    PassAt(row, jump, h, n);
    if n > 0 {
      PassAt(row, jump, h, n - 1);
    }
  }

  /** The row of line `k` of an interlaced image: every eighth row from 0, every eighth from 4, every
      fourth from 2, every second from 1. */
  lemma LineGoesTo(h: nat, k: nat)
    ensures var a, b, c, d := (h + 7) / 8, (h + 3) / 8, (h + 1) / 4, h / 2;
            && |Passes(0, h)| == a + b + c + d == h
            && (k < h ==> Passes(0, h)[k] ==
                            if k < a then 8 * k
                            else if k < a + b then 4 + 8 * (k - a)
                            else if k < a + b + c then 2 + 4 * (k - a - b)
                            else 1 + 2 * (k - a - b - c))
  {
    hide Pass, Passes;
    var a, b, c, d := (h + 7) / 8, (h + 3) / 8, (h + 1) / 4, h / 2;
    AllPasses(h);
    PassLength(0, 8, h, a);
    PassLength(4, 8, h, b);
    PassLength(2, 4, h, c);
    PassLength(1, 2, h, d);
    if k < a {
      PassAt(0, 8, h, k);
    } else if k < a + b {
      PassAt(4, 8, h, k - a);
    } else if k < a + b + c {
      PassAt(2, 4, h, k - a - b);
    } else if k < h {
      PassAt(1, 2, h, k - a - b - c);
    }
  }

  /** A plain image is read from the top. */
  lemma PlainLineGoesTo(p: Place, k: nat)
    ensures |RowsRead(p, false)| == if p.height > p.top then p.height - p.top else 0
    ensures k < |RowsRead(p, false)| ==> RowsRead(p, false)[k] == k
  {
    var h := if p.height > p.top then p.height - p.top else 0;
    PassLength(0, 1, h, h);
    PassAt(0, 1, h, k);
  }

  // ----- Every row once

  /** How often a row occurs. */
  function Count(rows: seq<nat>, r: nat): nat {
    if rows == [] then 0 else (if rows[0] == r then 1 else 0) + Count(rows[1..], r)
  }

  lemma {:induction false} CountConcat(a: seq<nat>, b: seq<nat>, r: nat)
    ensures Count(a + b, r) == Count(a, r) + Count(b, r)
  {
    if a == [] {
      assert a + b == b;
    } else {
      CountConcat(a[1..], b, r);
      assert (a + b)[0] == a[0] && (a + b)[1..] == a[1..] + b;
    }
  }

  lemma {:induction false} CountMember(rows: seq<nat>, r: nat)
    ensures r in rows <==> Count(rows, r) > 0
  {
    if rows == [] {
    } else {
      CountMember(rows[1..], r);
      assert r in rows <==> r == rows[0] || r in rows[1..];
    }
  }

  predicate Hits(row: nat, jump: nat, r: nat)
    requires jump > 0
  {
    r >= row && (r - row) % jump == 0
  }

  /** A pass hits its first row, and after it what a pass one jump further hits. */
  lemma HitsNext(row: nat, jump: nat, r: nat)
    requires jump > 0
    ensures Hits(row, jump, r) <==> r == row || Hits(row + jump, jump, r)
  {
    if r >= row {
      var d := r - row;
      if d < jump {
        Division(d, jump, 0, d);
      } else {
        OneMore(d - jump, jump);
      }
    }
  }

  lemma OneMore(d: nat, jump: nat)
    requires jump > 0
    ensures (d + jump) % jump == d % jump
  {
    var q := d / jump;
    assert d == jump * q + d % jump;
    assert jump * (q + 1) == jump * q + jump;
    Division(d + jump, jump, q + 1, d % jump);
  }

  lemma {:induction false} PassCounts(row: nat, jump: nat, h: nat, r: nat)
    requires jump > 0
    ensures Count(Pass(row, jump, h), r) == if r < h && Hits(row, jump, r) then 1 else 0
    decreases h - row
  {
    hide Hits;
    HitsNext(row, jump, r);
    HitsAbove(row, jump, r);
    HitsAbove(row + jump, jump, r);
    if row < h {
      PassCounts(row + jump, jump, h, r);
      assert Pass(row, jump, h)[1..] == Pass(row + jump, jump, h);
    }
  }

  lemma HitsAbove(row: nat, jump: nat, r: nat)
    requires jump > 0
    ensures Hits(row, jump, r) ==> r >= row
  {
  }

  /** Every number is in exactly one of the four passes. */
  lemma OnePass(r: nat)
    ensures (if Hits(0, 8, r) then 1 else 0) + (if Hits(4, 8, r) then 1 else 0) +
            (if Hits(2, 4, r) then 1 else 0) + (if Hits(1, 2, r) then 1 else 0) == 1
  {
    var q, m := r / 8, r % 8;
    assert r == 8 * q + m;
    Division(r, 8, q, m);
    if r >= 4 {
      Division(r - 4, 8, if m >= 4 then q else q - 1, if m >= 4 then m - 4 else m + 4);
    }
    if r >= 2 {
      Division(r - 2, 4, if m >= 6 then 2 * q + 1 else if m >= 2 then 2 * q else 2 * q - 1, (m + 2) % 4);
    }
    if r >= 1 {
      Division(r - 1, 2, if m == 0 then 4 * q - 1 else 4 * q + (m - 1) / 2, (m + 1) % 2);
    }
  }

  /** The four passes visit every row of the image exactly once, and no other. */
  lemma PassesOnce(h: nat, r: nat)
    ensures Count(Passes(0, h), r) == if r < h then 1 else 0
  {
    hide Pass, Hits, Count;
    var p0, p1, p2, p3 := Pass(0, 8, h), Pass(4, 8, h), Pass(2, 4, h), Pass(1, 2, h);
    PassCounts(0, 8, h, r);
    PassCounts(4, 8, h, r);
    PassCounts(2, 4, h, r);
    PassCounts(1, 2, h, r);
    AllPasses(h);
    CountConcat(p2, p3, r);
    CountConcat(p1, p2 + p3, r);
    CountConcat(p0, p1 + (p2 + p3), r);
    OnePass(r);
  }

  lemma AllPasses(h: nat)
    ensures Passes(0, h) == Pass(0, 8, h) + (Pass(4, 8, h) + (Pass(2, 4, h) + Pass(1, 2, h)))
  {
    hide Pass;
    assert Passes(4, h) == [];
    assert Passes(3, h) == Pass(1, 2, h) + [] == Pass(1, 2, h);
    assert Passes(2, h) == Pass(2, 4, h) + Passes(3, h);
    assert Passes(1, h) == Pass(4, 8, h) + Passes(2, h);
  }

  /** No row is filled twice, and none outside the image. */
  lemma RowsReadOnce(p: Place, interlace: bool, r: nat)
    ensures Count(RowsRead(p, interlace), r) ==
            if interlace then (if r < p.height then 1 else 0) else if r + p.top < p.height then 1 else 0
  {
    if interlace {
      PassesOnce(p.height, r);
    } else {
      PassCounts(0, 1, if p.height > p.top then p.height - p.top else 0, r);
    }
  }

  /** Which rows of the image are filled: all of them iff the image is interlaced, or starts at the
      top of the screen, or is empty. */
  lemma RowsCoverImage(p: Place, interlace: bool)
    ensures (forall r: nat :: r in RowsRead(p, interlace) <==> r < p.height)
            <==> interlace || p.top == 0 || p.height == 0
  {
    var rows := RowsRead(p, interlace);
    forall r: nat
      ensures r in rows <==> if interlace then r < p.height else r + p.top < p.height
    {
      RowsReadOnce(p, interlace, r);
      CountMember(rows, r);
    }
    if !interlace && p.top > 0 && p.height > 0 {
      assert p.height - 1 !in rows;
    }
  }

  // ----- The picture

  type Lines = seq<seq<Pixel>>

  /** The pixel at (r, c) of the screen when the lines have filled the given rows of the image. */
  function PixelAt(p: Place, rows: seq<nat>, lines: Lines, background: Pixel, r: nat, c: nat): Pixel
    requires |rows| <= |lines| && forall l <- lines :: |l| == p.width
  {
    if p.top <= r && p.left <= c < p.left + p.width && r - p.top in rows then
      lines[Find(rows, r - p.top)][c - p.left]
    else
      background
  }

  lemma {:induction false} FindSnoc(rows: seq<nat>, x: nat, y: nat)
    requires x !in rows
    ensures y in rows + [x] <==> y in rows || y == x
    ensures Find(rows + [x], y) == if y == x then |rows| else if y in rows then Find(rows, y) else |rows| + 1
  {
    var all := rows + [x];
    if y in rows {
      var i := Find(rows, y);
      FoundEarly(rows, y);
      assert all[..i] == rows[..i];
      FindIs(all, y, i);
    } else if y == x {
      assert all[..|rows|] == rows;
      FindIs(all, y, |rows|);
    } else {
      assert all[..|all|] == all;
      FindIs(all, y, |all|);
    }
  }

  lemma FoundEarly(rows: seq<nat>, y: nat)
    requires y in rows
    ensures Find(rows, y) < |rows|
  {
    assert rows[..|rows|] == rows;
  }

  /** One more row shows one more line. */
  lemma PixelSnoc(p: Place, rows: seq<nat>, x: nat, lines: Lines, background: Pixel, r: nat, c: nat)
    requires |rows| < |lines| && x !in rows && forall l <- lines :: |l| == p.width
    ensures PixelAt(p, rows + [x], lines, background, r, c) ==
            if r == p.top + x && p.left <= c < p.left + p.width then lines[|rows|][c - p.left]
            else PixelAt(p, rows, lines, background, r, c)
  {
    if p.top <= r {
      FindSnoc(rows, x, r - p.top);
      if r - p.top in rows {
        FoundEarly(rows, r - p.top);
      }
    }
  }

  ghost predicate NoneTwice(rows: seq<nat>) {
    forall r: nat :: Count(rows, r) <= 1
  }

  lemma NextIsNew(rows: seq<nat>, j: nat, rest: seq<nat>)
    requires NoneTwice(rows + ([j] + rest)) || NoneTwice(rows + [j] + rest)
    ensures j !in rows
  {
    ConcatAssociative(rows, [j], rest);
    CountConcat(rows, [j] + rest, j);
    CountMember(rows, j);
    assert ([j] + rest)[0] == j;
    assert Count(rows + ([j] + rest), j) <= 1;
  }

  lemma RowsReadNoneTwice(p: Place, interlace: bool)
    ensures NoneTwice(RowsRead(p, interlace))
  {
    forall r: nat
      ensures Count(RowsRead(p, interlace), r) <= 1
    {
      RowsReadOnce(p, interlace, r);
    }
  }

  /** Line `k` is seen in the row that it goes to, from the left edge of the image on; what is outside
      the image, and a row that no line goes to, is background. */
  lemma LineShown(p: Place, interlace: bool, lines: Lines, background: Pixel, k: nat, x: nat)
    requires var rows := RowsRead(p, interlace); k < |rows| <= |lines|
    requires x < p.width && forall l <- lines :: |l| == p.width
    ensures var rows := RowsRead(p, interlace);
            && PixelAt(p, rows, lines, background, p.top + rows[k], p.left + x) == lines[k][x]
            && forall r: nat, c: nat ::
                 r < p.top || r - p.top !in rows || r >= p.top + p.height || c < p.left || c >= p.left + p.width ==>
                   PixelAt(p, rows, lines, background, r, c) == background
  {
    hide RowsRead, Count, NoneTwice;
    var rows := RowsRead(p, interlace);
    RowsReadNoneTwice(p, interlace);
    FirstIs(rows, k);
    forall r: nat
      ensures r in rows ==> r < p.height
    {
      RowsReadOnce(p, interlace, r);
      CountMember(rows, r);
    }
  }

  lemma FirstIs(rows: seq<nat>, k: nat)
    requires k < |rows| && NoneTwice(rows)
    ensures Find(rows, rows[k]) == k
  {
    assert rows == rows[..k] + ([rows[k]] + rows[k + 1..]);
    NextIsNew(rows[..k], rows[k], rows[k + 1..]);
    FindIs(rows, rows[k], k);
  }

  class GifInput {
    const data: array2<Pixel>

    constructor (height: nat, width: nat)
      ensures data.Length0 == height && data.Length1 == width && fresh(data)
    {
      data := new Pixel[height, width]((_, _) => 0);
    }

    ghost predicate Shows(p: Place, rows: seq<nat>, lines: Lines, background: Pixel)
      requires |rows| <= |lines| && forall l <- lines :: |l| == p.width
      reads this, data
    {
      forall r, c :: 0 <= r < data.Length0 && 0 <= c < data.Length1 ==>
                       data[r, c] == PixelAt(p, rows, lines, background, r, c)
    }

    /** Reads one line of the file into a row of the screen. */
    method GetLine(p: Place, row: nat, line: seq<Pixel>)
      requires row < data.Length0 && p.left + p.width <= data.Length1 && |line| == p.width
      modifies data
      ensures forall r, c :: 0 <= r < data.Length0 && 0 <= c < data.Length1 ==>
                data[r, c] == if r == row && p.left <= c < p.left + p.width then line[c - p.left] else old(data[r, c])
    {
      forall c | 0 <= c < p.width {
        data[row, p.left + c] := line[c];
      }
    }

    /** Reads the next line, the `k`th, into the image row that is next. */
    method ReadRow(p: Place, row: nat, ghost rows: seq<nat>, lines: Lines, k: nat, background: Pixel)
      requires p.top + p.height <= data.Length0 && p.left + p.width <= data.Length1
      requires (forall l <- lines :: |l| == p.width) && k == |rows| < |lines|
      requires p.top <= row < p.top + p.height && row - p.top !in rows
      requires Shows(p, rows, lines, background)
      modifies data
      ensures Shows(p, rows + [row - p.top], lines, background)
    {
      hide PixelAt;
      GetLine(p, row, lines[k]);
      forall r, c | 0 <= r < data.Length0 && 0 <= c < data.Length1
        ensures data[r, c] == PixelAt(p, rows + [row - p.top], lines, background, r, c)
      {
        PixelSnoc(p, rows, row - p.top, lines, background, r, c);
      }
    }

    method FillBackground(ghost p: Place, ghost lines: Lines, background: Pixel)
      requires forall l <- lines :: |l| == p.width
      modifies data
      ensures Shows(p, [], lines, background)
    {
      forall r, c | 0 <= r < data.Length0 && 0 <= c < data.Length1 {
        data[r, c] := background;
      }
    }

    /** Fills the screen with the background and then reads the image, one line a row; false
        stands for the exceptions: an image that leaves the screen, or a line that is missing. */
    method ProcessImage(p: Place, interlace: bool, background: Pixel, lines: Lines) returns (ok: bool)
      requires forall l <- lines :: |l| == p.width
      modifies data
      ensures var rows := RowsRead(p, interlace);
              && ok == (p.top + p.height <= data.Length0 && p.left + p.width <= data.Length1 && |rows| <= |lines|)
              && (ok ==> Shows(p, rows, lines, background))
    {
      hide Shows, PixelAt, Count, Pass, NoneTwice;
      FillBackground(p, lines, background);
      if p.height + p.top > data.Length0 || p.width + p.left > data.Length1 {
        return false;
      }
      RowsReadNoneTwice(p, interlace);
      var k: nat := 0;
      ghost var rows: seq<nat> := [];
      if interlace {
        var i := 0;
        while i < 4
          invariant 0 <= i <= 4 && k == |rows| <= |lines|
          invariant rows + Passes(i, p.height) == Passes(0, p.height)
          invariant Shows(p, rows, lines, background)
        {
          ghost var passed := rows;
          ConcatAssociative(rows, Pass(OFFSETS[i], JUMPS[i], p.height), Passes(i + 1, p.height));
          ok, k, rows := ReadPass(p, OFFSETS[i], JUMPS[i], p.height, rows, Passes(i + 1, p.height),
                                  lines, k, background);
          if !ok {
            return false;
          }
          i := i + 1;
        }
        assert rows + [] == rows;
      } else {
        var end := if p.height > p.top then p.height - p.top else 0;
        assert Pass(0, 1, end) + [] == Pass(0, 1, end) && [] + Pass(0, 1, end) == Pass(0, 1, end);
        ok, k, rows := ReadPass(p, 0, 1, end, rows, [], lines, k, background);
        if !ok {
          return false;
        }
      }
      return true;
    }

    /** The rows of the image from `first` on in steps of `jump`, up to `end`. */
    method ReadPass(p: Place, first: nat, jump: nat, end: nat, ghost before: seq<nat>, ghost after: seq<nat>,
                    lines: Lines, k0: nat, background: Pixel)
      returns (ok: bool, k: nat, ghost rows: seq<nat>)
      requires p.top + p.height <= data.Length0 && p.left + p.width <= data.Length1
      requires (forall l <- lines :: |l| == p.width) && k0 == |before| <= |lines| && jump > 0 && end <= p.height
      requires Shows(p, before, lines, background)
      requires NoneTwice(before + (Pass(first, jump, end) + after))
      modifies data
      ensures rows <= before + Pass(first, jump, end)
      ensures ok == (|before| + |Pass(first, jump, end)| <= |lines|)
      ensures ok ==> rows == before + Pass(first, jump, end) && k == |rows| && Shows(p, rows, lines, background)
    {
      rows, k := before, k0;
      var j := first;
      ghost var all := before + Pass(first, jump, end);
      while j < end
        invariant k == |rows| <= |lines| && all == rows + Pass(j, jump, end) && rows <= all
        invariant NoneTwice(rows + (Pass(j, jump, end) + after))
        invariant Shows(p, rows, lines, background)
        decreases end - j
      {
        if k == |lines| {
          return false, k, rows;
        }
        ConcatAssociative([j], Pass(j + jump, jump, end), after);
        NextIsNew(rows, j, Pass(j + jump, jump, end) + after);
        ReadRow(p, p.top + j, rows, lines, k, background);
        ConcatAssociative(rows, [j], Pass(j + jump, jump, end));
        ConcatAssociative([j], Pass(j + jump, jump, end), after);
        ConcatAssociative(rows, [j], Pass(j + jump, jump, end) + after);
        rows := rows + [j];
        k := k + 1;
        j := j + jump;
      }
      assert rows + [] == rows;
      ok := true;
    }
  }
}
