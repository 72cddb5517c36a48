/** Model of `org.monte.media.color.Colors.createMacColors`: the 256-entry
    Macintosh palette. The first 215 entries sample the colour cube in
    six equal steps per channel; the cube's last entry, black, is
    overwritten by ramps of ten shades of red, green, blue and grey, and
    the last entry stays black.

    Channel values are the unsigned bytes the palette yields
    (`IndexColorModel` reads a `byte` as 0..255). */
module Colors {

  /** A palette entry. */
  datatype Rgb = Rgb(r: int, g: int, b: int)

  /** The ten shades of each ramp, from light to dark. */
  const Ramp: seq<int> := [238, 221, 187, 170, 136, 119, 85, 68, 34, 17]

  /** The channel value at step s of the cube, from 255 down to 0. */
  function CubeLevel(s: int): int {
    255 - 51 * s
  }

  /** The cube colour at position n = 36·i + 6·j + k. */
  function Cube(n: nat): Rgb
    requires n < 216
  {
    Rgb(CubeLevel(n / 36), CubeLevel(n / 6 % 6), CubeLevel(n % 6))
  }

  /** The palette entry n, described by the ranges of the table. */
  function MacColor(n: nat): Rgb
    requires n < 256
  {
    if n < 215 then Cube(n)
    else if n < 225 then Rgb(Ramp[n - 215], 0, 0)
    else if n < 235 then Rgb(0, Ramp[n - 225], 0)
    else if n < 245 then Rgb(0, 0, Ramp[n - 235])
    else if n < 255 then Rgb(Ramp[n - 245], Ramp[n - 245], Ramp[n - 245])
    else Rgb(0, 0, 0)
  }

  /** The position 36·i + 6·j + k of the cube names its three steps. */
  lemma CubeIndex(i: int, j: int, k: int)
    requires 0 <= i < 6 && 0 <= j < 6 && 0 <= k < 6
    ensures var n := 36 * i + 6 * j + k;
      n / 36 == i && n / 6 % 6 == j && n % 6 == k
  {
    var n := 36 * i + 6 * j + k;
    assert n / 6 == 6 * i + j;
  }

  /** `createMacColors()`: the red, green and blue channel tables, filled
      the way the source fills them. */
  method CreateMacColors() returns (r: seq<int>, g: seq<int>, b: seq<int>)
    ensures |r| == 256 && |g| == 256 && |b| == 256
    ensures forall n :: 0 <= n < 256 ==> Rgb(r[n], g[n], b[n]) == MacColor(n)
  {
    var ra := new int[256](_ => 0);
    var ga := new int[256](_ => 0);
    var ba := new int[256](_ => 0);
    var index := FillCube(ra, ga, ba);
    // The cube's last colour, black, is overwritten by the ramps.
    index := index - 1;
    index := FillRamp(ra, ga, ba, index, true, false, false);
    index := FillRamp(ra, ga, ba, index, false, true, false);
    index := FillRamp(ra, ga, ba, index, false, false, true);
    index := FillRamp(ra, ga, ba, index, true, true, true);
    // The last colour is black: nothing is written there.
    forall n | 0 <= n < 256
      ensures Rgb(ra[n], ga[n], ba[n]) == MacColor(n)
    {
      if 215 <= n < 255 {
        RampEntry(n);
      }
    }
    r, g, b := ra[..], ga[..], ba[..];
  }

  /** The ramp entries of the table, by range. */
  lemma RampEntry(n: nat)
    requires 215 <= n < 255
    ensures var c := MacColor(n);
      var i := (n - 215) % 10;
      c == [Rgb(Ramp[i], 0, 0), Rgb(0, Ramp[i], 0), Rgb(0, 0, Ramp[i]), Rgb(Ramp[i], Ramp[i], Ramp[i])][(n - 215) / 10]
  {
  }

  /** The nested loops over the six steps of each channel. */
  method FillCube(ra: array<int>, ga: array<int>, ba: array<int>) returns (index: int)
    requires ra.Length == 256 && ga.Length == 256 && ba.Length == 256
    requires ra != ga && ga != ba && ra != ba
    requires forall m :: 0 <= m < 256 ==> ra[m] == 0 && ga[m] == 0 && ba[m] == 0
    modifies ra, ga, ba
    ensures index == 216
    ensures forall m :: 0 <= m < 216 ==> Rgb(ra[m], ga[m], ba[m]) == Cube(m)
    ensures forall m :: 216 <= m < 256 ==> ra[m] == 0 && ga[m] == 0 && ba[m] == 0
  {
    index := 0;
    for i := 0 to 6
      invariant index == 36 * i
      invariant forall m :: 0 <= m < index ==> Rgb(ra[m], ga[m], ba[m]) == Cube(m)
      invariant forall m :: index <= m < 256 ==> ra[m] == 0 && ga[m] == 0 && ba[m] == 0
    {
      for j := 0 to 6
        invariant index == 36 * i + 6 * j
        invariant forall m :: 0 <= m < index ==> Rgb(ra[m], ga[m], ba[m]) == Cube(m)
        invariant forall m :: index <= m < 256 ==> ra[m] == 0 && ga[m] == 0 && ba[m] == 0
      {
        for k := 0 to 6
          invariant index == 36 * i + 6 * j + k
          invariant forall m :: 0 <= m < index ==> Rgb(ra[m], ga[m], ba[m]) == Cube(m)
          invariant forall m :: index <= m < 256 ==> ra[m] == 0 && ga[m] == 0 && ba[m] == 0
        {
          CubeIndex(i, j, k);
          ra[index] := CubeLevel(i);
          ga[index] := CubeLevel(j);
          ba[index] := CubeLevel(k);
          index := index + 1;
        }
      }
    }
  }

  /** One ramp loop: ten entries from `index` on, each shade in the
      chosen channels and 0 in the others. */
  method FillRamp(ra: array<int>, ga: array<int>, ba: array<int>, start: int, red: bool, green: bool, blue: bool)
    returns (index: int)
    requires ra.Length == 256 && ga.Length == 256 && ba.Length == 256
    requires ra != ga && ga != ba && ra != ba
    requires 0 <= start <= 246
    modifies ra, ga, ba
    ensures index == start + 10
    ensures forall m :: 0 <= m < 256 && !(start <= m < index) ==>
      ra[m] == old(ra[m]) && ga[m] == old(ga[m]) && ba[m] == old(ba[m])
    ensures forall m :: start <= m < index ==>
      Rgb(ra[m], ga[m], ba[m]) == Shade(Ramp[m - start], red, green, blue)
  {
    index := start;
    for i := 0 to 10
      invariant index == start + i
      invariant forall m :: 0 <= m < 256 && !(start <= m < index) ==>
        ra[m] == old(ra[m]) && ga[m] == old(ga[m]) && ba[m] == old(ba[m])
      invariant forall m :: start <= m < index ==>
        Rgb(ra[m], ga[m], ba[m]) == Shade(Ramp[m - start], red, green, blue)
    {
      var c := Shade(Ramp[i], red, green, blue);
      ra[index] := c.r;
      ga[index] := c.g;
      ba[index] := c.b;
      index := index + 1;
    }
  }

  /** A ramp shade in the chosen channels. */
  function Shade(x: int, red: bool, green: bool, blue: bool): Rgb {
    Rgb(if red then x else 0, if green then x else 0, if blue then x else 0)
  }

  predicate IsByte(x: int) {
    0 <= x < 256
  }

  /** Every channel value is an unsigned byte. */
  lemma MacColorsAreBytes(n: nat)
    requires n < 256
    ensures IsByte(MacColor(n).r) && IsByte(MacColor(n).g) && IsByte(MacColor(n).b)
  {
    if n < 215 {
      assert 0 <= n / 36 < 6 && 0 <= n / 6 % 6 < 6 && 0 <= n % 6 < 6;
    }
  }

  /** The cube holds every combination of the six levels per channel
      except black, which only the last entry holds. */
  lemma CubeIsSampled(i: int, j: int, k: int)
    requires 0 <= i < 6 && 0 <= j < 6 && 0 <= k < 6 && (i, j, k) != (5, 5, 5)
    ensures MacColor(36 * i + 6 * j + k) == Rgb(CubeLevel(i), CubeLevel(j), CubeLevel(k))
  {
    CubeIndex(i, j, k);
  }

  /** Each ramp darkens strictly from entry to entry. */
  lemma RampDecreasing(i: int, j: int)
    requires 0 <= i < j < 10
    ensures Ramp[i] > Ramp[j] && Ramp[j] > 0
  {
  }

  /** No ramp shade is a cube level: the ramps sit between the cube's
      steps. */
  lemma RampOffCube(i: int, s: int)
    requires 0 <= i < 10
    ensures Ramp[i] != CubeLevel(s)
  {
    assert Ramp[i] % 51 != 0;
  }

  /** The 215 cube entries are pairwise distinct. */
  lemma CubeDistinct(m: nat, n: nat)
    requires m < n < 215
    ensures MacColor(m) != MacColor(n)
  {
    assert m == 36 * (m / 36) + 6 * (m / 6 % 6) + m % 6;
    assert n == 36 * (n / 36) + 6 * (n / 6 % 6) + n % 6;
  }

  /** No ramp entry and not the last entry repeats a cube entry. */
  lemma CubeVersusRest(m: nat, n: nat)
    requires m < 215 <= n < 256
    ensures MacColor(m) != MacColor(n)
  {
    if n < 255 {
      var i := (n - 215) % 10;
      RampEntry(n);
      RampOffCube(i, m / 36);
      RampOffCube(i, m / 6 % 6);
      RampOffCube(i, m % 6);
    } else {
      assert m / 36 < 5 || m / 6 % 6 < 5 || m % 6 < 5 by {
        if m / 36 == 5 && m / 6 % 6 == 5 {
          assert m / 6 == 35;
        }
      }
    }
  }

  /** The ramp entries and the last entry are pairwise distinct. */
  lemma RampsDistinct(m: nat, n: nat)
    requires 215 <= m < n < 256
    ensures MacColor(m) != MacColor(n)
  {
    RampEntry(m);
    var i := (m - 215) % 10;
    assert Ramp[i] > 0;
    if n < 255 {
      RampEntry(n);
      var j := (n - 215) % 10;
      if (m - 215) / 10 == (n - 215) / 10 {
        RampDecreasing(i, j);
      } else {
        assert Ramp[j] > 0;
      }
    }
  }

  /** The 256 palette entries are pairwise distinct. */
  lemma MacColorsDistinct(m: nat, n: nat)
    requires m < n < 256
    ensures MacColor(m) != MacColor(n)
  {
    if n < 215 {
      CubeDistinct(m, n);
    } else if m < 215 {
      CubeVersusRest(m, n);
    } else {
      RampsDistinct(m, n);
    }
  }
}
