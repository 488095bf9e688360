/** The region-to-colour table built at start-up: each region, in order, is
    given the colour popped from the front of the palette (update.py:20-24). */
module Colours {
  import opened Rows

  /** The palette of update.py:21. */
  const Palette: seq<string> := ["#009e73", "#d55e08", "#e69f00", "#cc79a7", "#0072b2", "#56b4e9", "#000000"]
  /** The canonical region list of update.py:18. */
  const Regions: seq<string> := ["us-east-1", "us-west-1", "us-west-2", "eu-central-1", "ap-northeast-1", "ap-southeast-1"]

  /** Position of the last occurrence of `x` in `s`. */
  function LastIndex(s: seq<string>, x: string): (k: nat)
    requires x in s
    ensures k < |s| && s[k] == x
    ensures forall j :: k < j < |s| ==> s[j] != x
  {
    var n := |s| - 1;
    if s[n] == x then n
    else
      assert x in s[..n] by {
        var i :| 0 <= i < |s| && s[i] == x;
        assert s[..n][i] == x;
      }
      LastIndex(s[..n], x)
  }

  /** The table after the first |regions| iterations: every listed region
      is a key, and each region holds the colour of its last listing (the
      k-th region listed once gets the k-th colour). */
  function ColourTable(regions: seq<string>, colours: seq<string>): (m: map<string, string>)
    requires |regions| <= |colours|
    ensures m.Keys == set r | r in regions
    ensures forall i :: 0 <= i < |regions| ==> m[regions[i]] == colours[LastIndex(regions, regions[i])]
  {
    if regions == [] then map[]
    else
      var n := |regions| - 1;
      var m := ColourTable(regions[..n], colours);
      assert forall r :: r in regions <==> r in regions[..n] || r == regions[n] by {
        assert regions == regions[..n] + [regions[n]];
      }
      forall i | 0 <= i < n && regions[i] != regions[n]
        ensures LastIndex(regions, regions[i]) == LastIndex(regions[..n], regions[i])
      {
        assert regions[..n][i] == regions[i];
      }
      m[regions[n] := colours[n]]
  }

  /** The loop of update.py:23-24: pops one colour per region. When the
      palette runs out, `pop` raises and the run ends (`None`). */
  method AssignColours(regions: seq<string>, colours: seq<string>)
    returns (table: Option<map<string, string>>, remaining: seq<string>)
    ensures table.Some? <==> |regions| <= |colours|
    ensures table.Some? ==> table.value == ColourTable(regions, colours)
    ensures table.Some? ==> remaining == colours[|regions|..]
  {
    var m: map<string, string> := map[];
    remaining := colours;
    var k := 0;
    while k < |regions|
      invariant 0 <= k <= |regions| && k <= |colours|
      invariant remaining == colours[k..]
      invariant m == ColourTable(regions[..k], colours)
    {
      if remaining == [] {
        return None, remaining;
      }
      assert regions[..k + 1][..k] == regions[..k];
      m := m[regions[k] := remaining[0]];
      remaining := remaining[1..];
      k := k + 1;
    }
    assert regions[..k] == regions;
    table := Some(m);
  }

  /** With distinct regions, the k-th region gets the k-th colour; with
      distinct colours as well, no two regions share a colour. */
  lemma DistinctRegionsGetDistinctColours(regions: seq<string>, colours: seq<string>)
    requires |regions| <= |colours|
    requires NoDuplicates(regions)
    ensures forall i :: 0 <= i < |regions| ==> ColourTable(regions, colours)[regions[i]] == colours[i]
    ensures NoDuplicates(colours) ==> forall i, j :: 0 <= i < j < |regions| ==>
      ColourTable(regions, colours)[regions[i]] != ColourTable(regions, colours)[regions[j]]
  {
    var m := ColourTable(regions, colours);
    forall i | 0 <= i < |regions|
      ensures m[regions[i]] == colours[i]
    {
      assert LastIndex(regions, regions[i]) == i;
    }
  }

  /** The script's own lists: the palette outlasts the regions, so the loop
      never runs out, and each region gets its own colour, in order. */
  lemma ScriptColours()
    ensures |Regions| < |Palette|
    ensures forall i :: 0 <= i < |Regions| ==> ColourTable(Regions, Palette)[Regions[i]] == Palette[i]
    ensures forall i, j :: 0 <= i < j < |Regions| ==>
      ColourTable(Regions, Palette)[Regions[i]] != ColourTable(Regions, Palette)[Regions[j]]
  {
    assert NoDuplicates(Regions) && NoDuplicates(Palette);
    DistinctRegionsGetDistinctColours(Regions, Palette);
  }
}
