/**
 * The `comment!` macro of the tracing driver: a collection of numbers printed
 * as `{0x1a, 0x2b}` — each item `0x` plus lower-case hexadecimal without
 * leading zeros, items joined by `, `, the whole in braces.
 */
module Macros {
  import opened Wrappers
  import opened Text

  /** The items of the list, each `0x` and the number in lower-case hex, in iteration order. */
  function HexItems(targets: seq<nat>): seq<string> {
    if targets == [] then [] else ["0x" + Hex(targets[0])] + HexItems(targets[1..])
  }

  /** `comment!(targets)` */
  function Comment(targets: seq<nat>): (s: string)
    ensures |s| >= 2 && s[0] == '{' && s[|s| - 1] == '}'
  {
    "{" + Join(HexItems(targets), ", ") + "}"
  }

  /** The longest prefix of hexadecimal digits. */
  function HexRun(s: string): (d: string)
    ensures |d| <= |s| && d == s[..|d|]
  {
    if s == [] || !IsHexChar(s[0]) then [] else [s[0]] + HexRun(s[1..])
  }

  /** Reads back a non-empty `0x..., 0x...` list. */
  function ParseItems(s: string): Option<seq<nat>>
    decreases |s|
  {
    if |s| < 2 || s[..2] != "0x" then None
    else
      var d := HexRun(s[2..]);
      var rest := s[2 + |d|..];
      if d == [] then None
      else if rest == [] then Some([HexValue(d)])
      else if |rest| >= 2 && rest[..2] == ", " then
        match ParseItems(rest[2..])
        case Some(vs) => Some([HexValue(d)] + vs)
        case None => None
      else None
  }

  /** Reads a comment back into the numbers it lists. */
  function ParseComment(s: string): Option<seq<nat>> {
    if |s| < 2 || s[0] != '{' || s[|s| - 1] != '}' then None
    else if |s| == 2 then Some([])
    else ParseItems(s[1..|s| - 1])
  }

  /** A run of digits followed by a non-digit (or nothing) is exactly that run. */
  lemma {:induction false} HexRunOf(a: string, b: string)
    requires forall i :: 0 <= i < |a| ==> IsHexChar(a[i])
    requires b == [] || !IsHexChar(b[0])
    ensures HexRun(a + b) == a
  {
    if a != [] {
      assert (a + b)[1..] == a[1..] + b;
      HexRunOf(a[1..], b);
    } else {
      assert a + b == b;
    }
  }

  /** How the parser splits an item `0x<hex>` from what follows it. */
  lemma SplitItem(n: nat, r: string)
    requires r == [] || !IsHexChar(r[0])
    ensures var s := "0x" + Hex(n) + r;
      s[..2] == "0x" && HexRun(s[2..]) == Hex(n) && s[2 + |Hex(n)|..] == r
  {
    var s := "0x" + Hex(n) + r;
    HexShape(n);
    assert s[2..] == Hex(n) + r;
    HexRunOf(Hex(n), r);
  }

  /** A single item reads back as its number. */
  lemma ParseOne(n: nat)
    ensures ParseItems("0x" + Hex(n)) == Some([n])
  {
    SplitItem(n, "");
    assert "0x" + Hex(n) + "" == "0x" + Hex(n);
    HexShape(n);
    HexRoundTrip(n);
  }

  /** An item followed by `, ` and a readable list reads back as its number followed by that list. */
  lemma ParseCons(n: nat, tail: string)
    requires ParseItems(tail).Some?
    ensures ParseItems("0x" + Hex(n) + ", " + tail) == Some([n] + ParseItems(tail).value)
  {
    var r := ", " + tail;
    SplitItem(n, r);
    assert "0x" + Hex(n) + ", " + tail == "0x" + Hex(n) + r;
    assert r[..2] == ", " && r[2..] == tail;
    HexShape(n);
    HexRoundTrip(n);
  }

  lemma {:induction false} ParseItemsJoin(targets: seq<nat>)
    requires targets != []
    ensures ParseItems(Join(HexItems(targets), ", ")) == Some(targets)
  {
    var t := targets[0];
    var items := HexItems(targets);
    if |targets| == 1 {
      assert targets[1..] == [];
      assert HexItems(targets[1..]) == [];
      assert items == ["0x" + Hex(t)] + [];
      ParseOne(t);
      assert targets == [t];
    } else {
      var tail := Join(HexItems(targets[1..]), ", ");
      assert items[1..] == HexItems(targets[1..]);
      assert Join(items, ", ") == "0x" + Hex(t) + ", " + tail;
      ParseItemsJoin(targets[1..]);
      ParseCons(t, tail);
      assert targets == [t] + targets[1..];
    }
  }

  /** Parsing a comment gives back the listed numbers, in order: the format loses nothing. */
  lemma CommentRoundTrip(targets: seq<nat>)
    ensures ParseComment(Comment(targets)) == Some(targets)
  {
    var s := Comment(targets);
    if targets == [] {
      assert s == "{}";
    } else {
      var inner := Join(HexItems(targets), ", ");
      HexShape(targets[0]);
      assert |inner| >= 3 by {
        assert inner[..|"0x" + Hex(targets[0])|] == "0x" + Hex(targets[0]) by {
          if |targets| > 1 {
            assert HexItems(targets)[1..] == HexItems(targets[1..]);
          }
        }
      }
      assert s[1..|s| - 1] == inner;
      ParseItemsJoin(targets);
    }
  }

  /** An empty collection prints as `{}`. */
  lemma CommentEmpty()
    ensures Comment([]) == "{}"
  {
  }

  lemma {:induction false} HexItemsAppend(targets: seq<nat>, t: nat)
    ensures HexItems(targets + [t]) == HexItems(targets) + ["0x" + Hex(t)]
  {
    if targets != [] {
      assert (targets + [t])[1..] == targets[1..] + [t];
      HexItemsAppend(targets[1..], t);
    } else {
      assert targets + [t] == [t];
    }
  }

  /** Items appear in iteration order: one more item adds `, 0x<hex>` before the closing brace. */
  lemma CommentAppend(targets: seq<nat>, t: nat)
    requires targets != []
    ensures var c := Comment(targets);
      Comment(targets + [t]) == c[..|c| - 1] + ", 0x" + Hex(t) + "}"
  {
    var items := HexItems(targets);
    var inner := Join(items, ", ");
    HexItemsAppend(targets, t);
    assert items != [];
    JoinAppend(items, "0x" + Hex(t), ", ");
    var c := Comment(targets);
    assert c == "{" + inner + "}";
    assert c[..|c| - 1] == "{" + inner;
    assert Comment(targets + [t]) == "{" + (inner + ", " + ("0x" + Hex(t))) + "}";
  }
}
