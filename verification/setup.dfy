/** The game-setup form: its colour palette, the validation it runs before
    calling createGame, the colours it offers player 2 and the condition that
    disables its button. The backend itself validates none of this. */
module Setup {
  import opened Schema
  import Engine

  datatype ColorChoice = ColorChoice(name: string, value: string, bg: string)

  const PlayerColors: seq<ColorChoice> := [
    ColorChoice("Red", "#EF4444", "bg-red-500"),
    ColorChoice("Blue", "#3B82F6", "bg-blue-500"),
    ColorChoice("Green", "#10B981", "bg-green-500"),
    ColorChoice("Purple", "#8B5CF6", "bg-purple-500"),
    ColorChoice("Orange", "#F97316", "bg-orange-500")
  ]

  lemma PaletteValuesDistinct()
    ensures |PlayerColors| == 5
    ensures forall i, j :: 0 <= i < j < |PlayerColors| ==> PlayerColors[i].value != PlayerColors[j].value
    ensures forall i :: 0 <= i < |PlayerColors| ==> PlayerColors[i].value != ""
  {
  }

  // ------------------------------------------------------------ String.trim()

  /** The characters String.prototype.trim removes: ECMAScript WhiteSpace and
      LineTerminator code points. */
  predicate IsWhitespace(c: char) {
    || c == '\t' || c == '\n' || c == '\U{000B}' || c == '\U{000C}' || c == '\r' || c == ' '
    || c == '\U{00A0}' || c == '\U{1680}' || ('\U{2000}' <= c <= '\U{200A}')
    || c == '\U{2028}' || c == '\U{2029}' || c == '\U{202F}' || c == '\U{205F}'
    || c == '\U{3000}' || c == '\U{FEFF}'
  }

  /** The first index from `i` on that does not hold whitespace, or |s|. */
  function FirstNonBlank(s: string, i: nat): (k: nat)
    requires i <= |s|
    ensures i <= k <= |s|
    ensures forall j :: i <= j < k ==> IsWhitespace(s[j])
    ensures k < |s| ==> !IsWhitespace(s[k])
    decreases |s| - i
  {
    if i == |s| || !IsWhitespace(s[i]) then i else FirstNonBlank(s, i + 1)
  }

  /** The end of `s[..j]` once its trailing whitespace is cut off. */
  function EndOfNonBlank(s: string, j: nat): (k: nat)
    requires j <= |s|
    ensures k <= j
    ensures forall m :: k <= m < j ==> IsWhitespace(s[m])
    ensures k > 0 ==> !IsWhitespace(s[k - 1])
  {
    if j == 0 || !IsWhitespace(s[j - 1]) then j else EndOfNonBlank(s, j - 1)
  }

  function TrimStart(s: string): (r: string)
    ensures |r| <= |s| && r == s[|s| - |r|..]
    ensures forall i :: 0 <= i < |s| - |r| ==> IsWhitespace(s[i])
    ensures r != [] ==> !IsWhitespace(r[0])
  {
    s[FirstNonBlank(s, 0)..]
  }

  function TrimEnd(s: string): (r: string)
    ensures |r| <= |s| && r == s[..|r|]
    ensures forall i :: |r| <= i < |s| ==> IsWhitespace(s[i])
    ensures r != [] ==> !IsWhitespace(r[|r| - 1])
  {
    s[..EndOfNonBlank(s, |s|)]
  }

  /** String.prototype.trim. */
  function Trim(s: string): (r: string)
    ensures |r| <= |s|
    ensures r != [] ==> !IsWhitespace(r[0]) && !IsWhitespace(r[|r| - 1])
  {
    TrimEnd(TrimStart(s))
  }

  /** trim() yields the part of the input from its first non-whitespace
      character on, with nothing but whitespace cut from either end; the
      result neither starts nor ends with whitespace, and it is empty exactly
      when the input is all whitespace. */
  lemma TrimSpec(s: string)
    ensures var r := Trim(s);
            var a := |s| - |TrimStart(s)|;
            && 0 <= a && a + |r| <= |s|
            && (forall i :: 0 <= i < |r| ==> r[i] == s[a + i])
            && (forall i :: 0 <= i < a || a + |r| <= i < |s| ==> IsWhitespace(s[i]))
            && (r != [] ==> !IsWhitespace(r[0]) && !IsWhitespace(r[|r| - 1]))
            && (r == [] <==> forall i :: 0 <= i < |s| ==> IsWhitespace(s[i]))
  {
    var front := TrimStart(s);
    var r := TrimEnd(front);
    var a := |s| - |front|;
    forall i | a + |r| <= i < |s| ensures IsWhitespace(s[i]) {
      assert s[i] == front[i - a];
    }
    if r != [] {
      assert r[0] == front[0];
    }
  }

  // --------------------------------------------------------- handleCreateGame

  datatype SetupError = MissingName | MissingColor | SameColor {
    /** The toast shown for each rejection. */
    function Message(): string {
      match this
      case MissingName => "Please enter names for both players"
      case MissingColor => "Please select colors for both players"
      case SameColor => "Players must have different colors"
    }
  }

  /** Each rejection has its own toast text: the message tells the user
      which check failed. */
  lemma MessagesTellRejectionsApart(a: SetupError, b: SetupError)
    ensures a.Message() == b.Message() <==> a == b
    ensures a.Message() != []
  {
  }

  /** The arguments handed to createGame. */
  datatype CreateArgs = CreateArgs(player1Name: string, player1Color: string,
                                   player2Name: string, player2Color: string)

  datatype Validated = Accept(args: CreateArgs) | Reject(error: SetupError)

  /** The checks in order: names first, then that both colours are chosen,
      then that they differ. On success the names are passed trimmed and the
      colours unchanged. */
  function ValidateSetup(player1Name: string, player1Color: string,
                         player2Name: string, player2Color: string): (r: Validated)
    ensures r == Reject(MissingName) <==> Trim(player1Name) == [] || Trim(player2Name) == []
    ensures r == Reject(MissingColor) <==>
              Trim(player1Name) != [] && Trim(player2Name) != [] && (player1Color == [] || player2Color == [])
    ensures r == Reject(SameColor) <==>
              Trim(player1Name) != [] && Trim(player2Name) != [] && player1Color != [] && player2Color != []
              && player1Color == player2Color
    ensures r.Accept? ==>
              && r.args == CreateArgs(Trim(player1Name), player1Color, Trim(player2Name), player2Color)
              && r.args.player1Name != [] && r.args.player2Name != []
              && r.args.player1Color != [] && r.args.player2Color != []
              && r.args.player1Color != r.args.player2Color
  {
    if Trim(player1Name) == [] || Trim(player2Name) == [] then Reject(MissingName)
    else if player1Color == [] || player2Color == [] then Reject(MissingColor)
    else if player1Color == player2Color then Reject(SameColor)
    else Accept(CreateArgs(Trim(player1Name), player1Color, Trim(player2Name), player2Color))
  }

  /** The create button's disabled expression. */
  function CreateDisabled(isCreating: bool, player1Name: string, player1Color: string,
                          player2Name: string, player2Color: string): (d: bool)
    ensures d <==> isCreating || ValidateSetup(player1Name, player1Color, player2Name, player2Color).Reject?
  {
    isCreating || Trim(player1Name) == [] || Trim(player2Name) == []
    || player1Color == [] || player2Color == [] || player1Color == player2Color
  }

  /** A game created from accepted form input has non-empty names that do not
      start or end with whitespace, and two distinct chosen colours. */
  lemma AcceptedFormMakesDistinctPlayers(player1Name: string, player1Color: string,
                                         player2Name: string, player2Color: string)
    requires ValidateSetup(player1Name, player1Color, player2Name, player2Color).Accept?
    ensures var a := ValidateSetup(player1Name, player1Color, player2Name, player2Color).args;
            var g := Engine.NewGame(a.player1Name, a.player1Color, a.player2Name, a.player2Color);
            && g.player1Color != g.player2Color
            && g.player1Name != [] && !IsWhitespace(g.player1Name[0])
            && g.player2Name != [] && !IsWhitespace(g.player2Name[0])
  {
    TrimSpec(player1Name);
    TrimSpec(player2Name);
  }

  // ----------------------------------------------- availableColorsForPlayer2

  /** The palette without the entries whose value is `taken`, order kept. */
  function WithoutColor(palette: seq<ColorChoice>, taken: string): (r: seq<ColorChoice>)
    ensures |r| <= |palette|
    ensures forall c :: c in r <==> c in palette && c.value != taken
  {
    if palette == [] then []
    else (if palette[0].value != taken then [palette[0]] else []) + WithoutColor(palette[1..], taken)
  }

  /** `r` lists some of the elements of `s`, in the order of `s`. */
  predicate IsSubsequence<T(==)>(r: seq<T>, s: seq<T>)
    decreases |s|
  {
    r == [] || (s != [] && ((r[0] == s[0] && IsSubsequence(r[1..], s[1..])) || IsSubsequence(r, s[1..])))
  }

  lemma {:induction false} WithoutColorKeepsOrder(palette: seq<ColorChoice>, taken: string)
    ensures IsSubsequence(WithoutColor(palette, taken), palette)
    decreases |palette|
  {
    if palette != [] {
      WithoutColorKeepsOrder(palette[1..], taken);
      var rest := WithoutColor(palette[1..], taken);
      if palette[0].value != taken {
        assert WithoutColor(palette, taken) == [palette[0]] + rest;
        assert ([palette[0]] + rest)[1..] == rest;
      } else {
        assert WithoutColor(palette, taken) == rest;
      }
    }
  }

  function AvailableColorsForPlayer2(player1Color: string): (r: seq<ColorChoice>)
    ensures forall c :: c in r <==> c in PlayerColors && c.value != player1Color
  {
    WithoutColor(PlayerColors, player1Color)
  }

  predicate ValuesDistinct(palette: seq<ColorChoice>) {
    forall i, j :: 0 <= i < j < |palette| ==> palette[i].value != palette[j].value
  }

  predicate Offers(palette: seq<ColorChoice>, value: string) {
    exists i :: 0 <= i < |palette| && palette[i].value == value
  }

  /** Over a palette with distinct values, filtering drops exactly one entry
      when the value is offered and none otherwise. */
  lemma {:induction false} WithoutColorLength(palette: seq<ColorChoice>, taken: string)
    requires ValuesDistinct(palette)
    ensures |WithoutColor(palette, taken)| == |palette| - (if Offers(palette, taken) then 1 else 0)
    decreases |palette|
  {
    if palette != [] {
      var tail := palette[1..];
      assert ValuesDistinct(tail) by {
        forall i, j | 0 <= i < j < |tail| ensures tail[i].value != tail[j].value {
          assert tail[i] == palette[i + 1] && tail[j] == palette[j + 1];
        }
      }
      WithoutColorLength(tail, taken);
      if palette[0].value == taken {
        assert Offers(palette, taken);
        assert !Offers(tail, taken) by {
          forall i | 0 <= i < |tail| ensures tail[i].value != taken {
            assert tail[i] == palette[i + 1];
          }
        }
      } else {
        if Offers(palette, taken) {
          var i :| 0 <= i < |palette| && palette[i].value == taken;
          assert tail[i - 1].value == taken;
        }
        if Offers(tail, taken) {
          var i :| 0 <= i < |tail| && tail[i].value == taken;
          assert palette[i + 1].value == taken;
        }
      }
    }
  }

  /** Player 2 is offered the palette minus player 1's colour, in palette
      order: four colours when player 1 chose one, all five otherwise. */
  lemma AvailableColorsSpec(player1Color: string)
    ensures var r := AvailableColorsForPlayer2(player1Color);
            && IsSubsequence(r, PlayerColors)
            && (forall c :: c in r <==> c in PlayerColors && c.value != player1Color)
            && |r| == (if Offers(PlayerColors, player1Color) then 4 else 5)
  {
    WithoutColorKeepsOrder(PlayerColors, player1Color);
    PaletteValuesDistinct();
    WithoutColorLength(PlayerColors, player1Color);
  }
}
