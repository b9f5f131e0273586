/**
 * The colour filter: the closed list of labels the filter box offers and the
 * switch that decides, from the selected label and a marker's colour token,
 * whether the marker is listed.
 */
module ColorFilter {

  /** The label that lists every marker. */
  const AllColors: string := "All Colors"

  /** The 16 marker colours, in the order the filter box lists them. */
  const Colors: seq<string> := [
    "Blue", "Cyan", "Green", "Yellow", "Red", "Pink", "Purple", "Fuchsia",
    "Rose", "Lavender", "Sky", "Mint", "Lemon", "Sand", "Cocoa", "Cream"
  ]

  /** The 17 labels of the filter box, the default first. */
  const FilterLabels: seq<string> := [
    "All Colors",
    "Blue Only", "Cyan Only", "Green Only", "Yellow Only", "Red Only",
    "Pink Only", "Purple Only", "Fuchsia Only", "Rose Only", "Lavender Only",
    "Sky Only", "Mint Only", "Lemon Only", "Sand Only", "Cocoa Only", "Cream Only"
  ]

  /**
   * The filter switch: "All Colors" passes every colour, each "<X> Only"
   * passes only the token "ResolveColor<X>", and any other label passes
   * nothing.
   */
  function ColorPasses(filter: string, color: string): bool
  {
    if filter == "All Colors" then true
    else if filter == "Blue Only" then color == "ResolveColorBlue"
    else if filter == "Cyan Only" then color == "ResolveColorCyan"
    else if filter == "Green Only" then color == "ResolveColorGreen"
    else if filter == "Yellow Only" then color == "ResolveColorYellow"
    else if filter == "Red Only" then color == "ResolveColorRed"
    else if filter == "Pink Only" then color == "ResolveColorPink"
    else if filter == "Purple Only" then color == "ResolveColorPurple"
    else if filter == "Fuchsia Only" then color == "ResolveColorFuchsia"
    else if filter == "Rose Only" then color == "ResolveColorRose"
    else if filter == "Lavender Only" then color == "ResolveColorLavender"
    else if filter == "Sky Only" then color == "ResolveColorSky"
    else if filter == "Mint Only" then color == "ResolveColorMint"
    else if filter == "Lemon Only" then color == "ResolveColorLemon"
    else if filter == "Sand Only" then color == "ResolveColorSand"
    else if filter == "Cocoa Only" then color == "ResolveColorCocoa"
    else if filter == "Cream Only" then color == "ResolveColorCream"
    else false
  }

  /** The filter box offers "All Colors" and then "<X> Only" for each colour, in order. */
  lemma FilterLabelsListColors()
    ensures |FilterLabels| == |Colors| + 1 && FilterLabels[0] == AllColors
    ensures forall k :: 0 <= k < |Colors| ==> FilterLabels[k + 1] == Colors[k] + " Only"
  {
    forall k | 0 <= k < |Colors|
      ensures FilterLabels[k + 1] == Colors[k] + " Only"
    {
      LabelOfColor(k);
    }
  }

  /** The label of the `k`-th colour, a case at a time. */
  lemma LabelOfColor(k: nat)
    requires k < |Colors|
    ensures FilterLabels[k + 1] == Colors[k] + " Only"
  {
    if k < 4 {
      assert Colors[k] + " Only" == ["Blue Only", "Cyan Only", "Green Only", "Yellow Only"][k];
    } else if k < 8 {
      assert Colors[k] + " Only" == ["Red Only", "Pink Only", "Purple Only", "Fuchsia Only"][k - 4];
    } else if k < 12 {
      assert Colors[k] + " Only" == ["Rose Only", "Lavender Only", "Sky Only", "Mint Only"][k - 8];
    } else {
      assert Colors[k] + " Only" == ["Lemon Only", "Sand Only", "Cocoa Only", "Cream Only"][k - 12];
    }
  }

  /** Each "<X> Only" label passes exactly the colour token "ResolveColor<X>". */
  lemma OnlyLabelPassesItsToken(k: nat, color: string)
    requires k < |Colors|
    ensures ColorPasses(Colors[k] + " Only", color) <==> color == "ResolveColor" + Colors[k]
  {
    if k < 4 {
      BlueToYellowTokens(k, color);
    } else if k < 8 {
      RedToFuchsiaTokens(k, color);
    } else if k < 12 {
      RoseToMintTokens(k, color);
    } else {
      LemonToCreamTokens(k, color);
    }
  }

  lemma BlueToYellowTokens(k: nat, color: string)
    requires 0 <= k < 4
    ensures ColorPasses(Colors[k] + " Only", color) <==> color == "ResolveColor" + Colors[k]
  {
    var x := Colors[k];
    match k
    case 0 => assert x + " Only" == "Blue Only" && "ResolveColor" + x == "ResolveColorBlue";
    case 1 => assert x + " Only" == "Cyan Only" && "ResolveColor" + x == "ResolveColorCyan";
    case 2 => assert x + " Only" == "Green Only" && "ResolveColor" + x == "ResolveColorGreen";
    case 3 => assert x + " Only" == "Yellow Only" && "ResolveColor" + x == "ResolveColorYellow";
  }

  lemma RedToFuchsiaTokens(k: nat, color: string)
    requires 4 <= k < 8
    ensures ColorPasses(Colors[k] + " Only", color) <==> color == "ResolveColor" + Colors[k]
  {
    var x := Colors[k];
    match k
    case 4 => assert x + " Only" == "Red Only" && "ResolveColor" + x == "ResolveColorRed";
    case 5 => assert x + " Only" == "Pink Only" && "ResolveColor" + x == "ResolveColorPink";
    case 6 => assert x + " Only" == "Purple Only" && "ResolveColor" + x == "ResolveColorPurple";
    case 7 => assert x + " Only" == "Fuchsia Only" && "ResolveColor" + x == "ResolveColorFuchsia";
  }

  lemma RoseToMintTokens(k: nat, color: string)
    requires 8 <= k < 12
    ensures ColorPasses(Colors[k] + " Only", color) <==> color == "ResolveColor" + Colors[k]
  {
    var x := Colors[k];
    match k
    case 8 => assert x + " Only" == "Rose Only" && "ResolveColor" + x == "ResolveColorRose";
    case 9 => assert x + " Only" == "Lavender Only" && "ResolveColor" + x == "ResolveColorLavender";
    case 10 => assert x + " Only" == "Sky Only" && "ResolveColor" + x == "ResolveColorSky";
    case 11 => assert x + " Only" == "Mint Only" && "ResolveColor" + x == "ResolveColorMint";
  }

  lemma LemonToCreamTokens(k: nat, color: string)
    requires 12 <= k < 16
    ensures ColorPasses(Colors[k] + " Only", color) <==> color == "ResolveColor" + Colors[k]
  {
    var x := Colors[k];
    match k
    case 12 => assert x + " Only" == "Lemon Only" && "ResolveColor" + x == "ResolveColorLemon";
    case 13 => assert x + " Only" == "Sand Only" && "ResolveColor" + x == "ResolveColorSand";
    case 14 => assert x + " Only" == "Cocoa Only" && "ResolveColor" + x == "ResolveColorCocoa";
    case 15 => assert x + " Only" == "Cream Only" && "ResolveColor" + x == "ResolveColorCream";
  }

  /** "All Colors" passes every colour token. */
  lemma AllColorsPassesEvery(color: string)
    ensures ColorPasses(AllColors, color)
  {
  }

  /** A label the filter box does not offer passes nothing. */
  lemma UnknownLabelPassesNothing(filter: string, color: string)
    requires filter !in FilterLabels
    ensures !ColorPasses(filter, color)
  {
  }

  /** Every label but "All Colors" passes at most one colour token. */
  lemma SpecificLabelPassesOneToken(filter: string, c1: string, c2: string)
    requires filter != AllColors
    requires ColorPasses(filter, c1) && ColorPasses(filter, c2)
    ensures c1 == c2
  {
  }
}
