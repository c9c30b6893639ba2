/**
 * The naming helpers of JdbcCriteriaBase: camelize (drop underscores, capitalise
 * the first letter of every underscore-delimited word) and labelize (the same on
 * the lower-cased name, with a blank for every underscore).
 */
module Naming {
  import opened Wrappers
  import opened Text

  /**
   * What the character loop of camelize(s, replacement) produces from `s` when
   * the flag nextToUpperCase currently holds `upperNext`.
   */
  function CamelizeFrom(s: string, replacement: string, upperNext: bool): string
    decreases |s|
  {
    if s == [] then []
    else if s[0] == '_' then replacement + CamelizeFrom(s[1..], replacement, true)
    else (if upperNext then [ToUpper(s[0])] else [s[0]]) + CamelizeFrom(s[1..], replacement, false)
  }

  /** camelize(s, replacement) on a non-null string (the flag starts true). */
  function Camelized(s: string, replacement: string): string
  {
    CamelizeFrom(s, replacement, true)
  }

  /** labelize(s): lower-case, then camelize with a blank for each underscore. */
  function Labelized(s: string): string
  {
    Camelized(LowerCase(s), " ")
  }

  /**
   * The private camelize(s, underscoreReplacement): null and the empty string are
   * returned as they are; otherwise the characters are rewritten one by one.
   */
  method CamelizeWithReplacement(s: Option<string>, replacement: string) returns (r: Option<string>)
    ensures s.None? ==> r.None?
    ensures s.Some? ==> r == Some(Camelized(s.value, replacement))
    ensures s == Some([]) ==> r == s
  {
    if s.Some? && |s.value| > 0 {
      var str := s.value;
      var out: string := [];
      var nextToUpperCase := true;
      var i := 0;
      while i < |str|
        invariant 0 <= i <= |str|
        invariant nextToUpperCase == (i == 0 || str[i - 1] == '_')
        invariant out + CamelizeFrom(str[i..], replacement, nextToUpperCase) == Camelized(str, replacement)
      {
        var c := str[i];
        ghost var before, flag := out, nextToUpperCase;
        assert str[i..][0] == c && str[i..][1..] == str[i + 1..];
        if c != '_' {
          if nextToUpperCase {
            out := out + [ToUpper(c)];
            nextToUpperCase := false;
          } else {
            out := out + [c];
          }
        } else {
          out := out + replacement;
          nextToUpperCase := true;
        }
        assert CamelizeFrom(str[i..], replacement, flag)
            == (out[|before|..]) + CamelizeFrom(str[i + 1..], replacement, nextToUpperCase);
        assert out == before + out[|before|..];
        i := i + 1;
      }
      assert CamelizeFrom(str[i..], replacement, nextToUpperCase) == [];
      assert out + [] == out;
      r := Some(out);
    } else {
      r := s;
    }
  }

  /** The public camelize(s): underscores are dropped. */
  method Camelize(s: Option<string>) returns (r: Option<string>)
    ensures s.None? ==> r.None?
    ensures s.Some? ==> r == Some(Camelized(s.value, ""))
    ensures s == Some([]) ==> r == s
  {
    r := CamelizeWithReplacement(s, "");
  }

  /**
   * The public labelize(s). The argument is lower-cased before anything else, so
   * a null argument is a caller error: the parameter is non-null here.
   */
  method Labelize(s: string) returns (r: string)
    ensures r == Labelized(s)
    ensures s == [] ==> r == s
  {
    var camel := CamelizeWithReplacement(Some(LowerCase(s)), " ");
    r := camel.value;
  }

  // ---------------------------------------------------------------------------
  // The character rule, stated position by position without the flag.

  /**
   * What position `i` of `s` contributes: the replacement for an underscore, the
   * upper-cased character at the start of the string or right after an
   * underscore, the character itself otherwise.
   */
  function Piece(s: string, replacement: string, i: nat): string
    requires i < |s|
  {
    if s[i] == '_' then replacement
    else if i == 0 || s[i - 1] == '_' then [ToUpper(s[i])]
    else [s[i]]
  }

  /** The pieces of positions k, k+1, ..., |s|-1, concatenated. */
  function PiecesFrom(s: string, replacement: string, k: nat): string
    requires k <= |s|
    decreases |s| - k
  {
    if k == |s| then [] else Piece(s, replacement, k) + PiecesFrom(s, replacement, k + 1)
  }

  lemma {:induction false} CamelizeFromIsPieces(s: string, replacement: string, k: nat)
    requires k <= |s|
    ensures CamelizeFrom(s[k..], replacement, k == 0 || s[k - 1] == '_') == PiecesFrom(s, replacement, k)
    decreases |s| - k
  {
    if k < |s| {
      CamelizeFromIsPieces(s, replacement, k + 1);
      assert s[k..][1..] == s[k + 1..];
    }
  }

  /**
   * camelize(s, replacement) replaces every underscore by the replacement,
   * upper-cases the first character and every other character right after an
   * underscore, and copies all remaining characters unchanged.
   */
  lemma CamelizedCharacterRule(s: string, replacement: string)
    ensures Camelized(s, replacement) == PiecesFrom(s, replacement, 0)
  {
    CamelizeFromIsPieces(s, replacement, 0);
  }

  // ---------------------------------------------------------------------------
  // Lengths.

  lemma {:induction false} CamelizeFromLength(s: string, replacement: string, upperNext: bool)
    ensures |CamelizeFrom(s, replacement, upperNext)| == |s| - Count(s, '_') + Count(s, '_') * |replacement|
    decreases |s|
  {
    if s != [] {
      CamelizeFromLength(s[1..], replacement, s[0] == '_');
    }
  }

  /** camelize(s) is shorter than `s` by exactly the number of underscores. */
  lemma CamelizeLength(s: string)
    ensures |Camelized(s, "")| == |s| - Count(s, '_')
  {
    CamelizeFromLength(s, "", true);
  }

  /** labelize(s) has exactly as many characters as `s`. */
  lemma LabelizeLength(s: string)
    ensures |Labelized(s)| == |s|
  {
    CamelizeFromLength(LowerCase(s), " ", true);
    LowerCaseKeepsUnderscores(s);
  }

  // ---------------------------------------------------------------------------
  // Underscores and idempotence.

  lemma {:induction false} CamelizeFromDropsUnderscores(s: string, replacement: string, upperNext: bool)
    requires '_' !in replacement
    ensures '_' !in CamelizeFrom(s, replacement, upperNext)
    decreases |s|
  {
    if s != [] {
      CamelizeFromDropsUnderscores(s[1..], replacement, s[0] == '_');
    }
  }

  /**
   * Every underscore is replaced: when the replacement holds none, neither does
   * the result (so camelize and labelize never return an underscore).
   */
  lemma CamelizedHasNoUnderscore(s: string, replacement: string)
    requires '_' !in replacement
    ensures '_' !in Camelized(s, replacement)
  {
    CamelizeFromDropsUnderscores(s, replacement, true);
  }

  /** A word with its first character upper-cased when `upper` holds. */
  function Capitalized(w: string, upper: bool): string
  {
    if w == [] || !upper then w else [ToUpper(w[0])] + w[1..]
  }

  /**
   * An underscore-free prefix is copied through, capitalised only if the flag was
   * set on entry; the flag is set after it only if the prefix is empty.
   */
  lemma {:induction false} CamelizeFromWord(w: string, rest: string, replacement: string, upperNext: bool)
    requires '_' !in w
    ensures CamelizeFrom(w + rest, replacement, upperNext)
         == Capitalized(w, upperNext) + CamelizeFrom(rest, replacement, upperNext && w == [])
    decreases |w|
  {
    if w != [] {
      assert (w + rest)[0] == w[0];
      assert (w + rest)[1..] == w[1..] + rest;
      CamelizeFromWord(w[1..], rest, replacement, false);
      assert w == [w[0]] + w[1..];
    } else {
      assert w + rest == rest;
    }
  }

  /** camelize of a camelized string changes nothing. */
  lemma CamelizeIdempotent(s: string)
    ensures Camelized(Camelized(s, ""), "") == Camelized(s, "")
  {
    var c := Camelized(s, "");
    CamelizedHasNoUnderscore(s, "");
    assert c + [] == c;
    CamelizeFromWord(c, [], "", true);
    if c != [] {
      CamelizedStartsUpper(s);
      assert c == [c[0]] + c[1..];
    }
  }

  lemma {:induction false} CamelizeFromStartsUpper(s: string)
    requires CamelizeFrom(s, "", true) != []
    ensures ToUpper(CamelizeFrom(s, "", true)[0]) == CamelizeFrom(s, "", true)[0]
    decreases |s|
  {
    if s[0] == '_' {
      CamelizeFromStartsUpper(s[1..]);
    } else {
      ToUpperIdempotent(s[0]);
    }
  }

  /** A non-empty camelize result starts with a character upper-casing leaves alone. */
  lemma CamelizedStartsUpper(s: string)
    ensures Camelized(s, "") != [] ==> ToUpper(Camelized(s, "")[0]) == Camelized(s, "")[0]
  {
    if Camelized(s, "") != [] {
      CamelizeFromStartsUpper(s);
    }
  }

  // ---------------------------------------------------------------------------
  // Worked examples.

  /** camelize and labelize of "order_total", for any replacement. */
  lemma {:induction false} CamelizedOrderTotal(replacement: string)
    ensures Camelized("order_total", replacement) == "Order" + replacement + "Total"
  {
    var order, total := "order", "total";
    var rest := "_" + total;
    assert "order_total" == order + rest;
    CamelizeFromWord(order, rest, replacement, true);
    assert Capitalized(order, true) == "Order";
    assert rest[0] == '_' && rest[1..] == total;
    assert CamelizeFrom(rest, replacement, false) == replacement + CamelizeFrom(total, replacement, true);
    assert total + [] == total;
    CamelizeFromWord(total, [], replacement, true);
    assert Capitalized(total, true) == "Total";
  }

  /** labelize("order_total") is "Order Total". */
  lemma LabelizeOrderTotal()
    ensures Labelized("order_total") == "Order Total"
  {
    assert LowerCase("order_total") == "order_total";
    CamelizedOrderTotal(" ");
  }

  /** camelize("order_total") is "OrderTotal". */
  lemma CamelizeOrderTotal()
    ensures Camelized("order_total", "") == "OrderTotal"
  {
    CamelizedOrderTotal("");
  }
}
