/** Pygments token types, as far as the rainbow-bracket lexer tells them apart.

    A pygments token type is identified by its dotted name: looking up the name
    "Punctuation.Level3" always yields the same object, and two different names
    never yield the same object. The datatype below has one constructor per
    token type the lexer treats specially, `Level(n)` for the family of
    bracket-depth tokens, and `Other` for every remaining token type. */
module Tokens {

  datatype TokenType =
    | Name               // Token.Name, exactly (not one of its children)
    | NameConstant       // Token.Name.Constant
    | Punctuation        // Token.Punctuation, exactly
    | PunctuationError   // Token.Punctuation.Error
    | Level(n: int)      // Token.Punctuation.Level<n>
    | Other(name: string)

  predicate IsDigitChar(c: char) {
    '0' <= c <= '9'
  }

  function DigitChar(d: nat): (c: char)
    requires d < 10
    ensures IsDigitChar(c)
  {
    "0123456789"[d]
  }

  /** Python's `str(n)` for a natural number: base 10, no leading zeros. */
  function NatDecimal(n: nat): (r: string)
    ensures |r| >= 1
    ensures forall i :: 0 <= i < |r| ==> IsDigitChar(r[i])
    ensures n >= 10 ==> |r| >= 2
  {
    if n < 10 then [DigitChar(n)] else NatDecimal(n / 10) + [DigitChar(n % 10)]
  }

  /** Python's `str(n)` (and `f"{n}"`) for any integer. */
  function IntToDecimal(n: int): string {
    if n < 0 then "-" + NatDecimal(-n) else NatDecimal(n)
  }

  lemma {:induction false} NatDecimalInjective(a: nat, b: nat)
    requires NatDecimal(a) == NatDecimal(b)
    ensures a == b
  {
    var sa, sb := NatDecimal(a), NatDecimal(b);
    if a < 10 || b < 10 {
      assert |sa| == |sb| == 1;
      assert "0123456789"[a] == sa[0] == sb[0] == "0123456789"[b];
    } else {
      assert sa[|sa| - 1] == sb[|sb| - 1];
      assert a % 10 == b % 10 by {
        assert "0123456789"[a % 10] == "0123456789"[b % 10];
      }
      assert sa[..|sa| - 1] == NatDecimal(a / 10);
      assert sb[..|sb| - 1] == NatDecimal(b / 10);
      NatDecimalInjective(a / 10, b / 10);
    }
  }

  /** A printed integer starts with a minus sign exactly when it is negative,
      and the digits after the sign print its magnitude. */
  lemma IntToDecimalSign(n: int)
    ensures |IntToDecimal(n)| >= 1
    ensures IntToDecimal(n)[0] == '-' <==> n < 0
    ensures n < 0 ==> IntToDecimal(n)[1..] == NatDecimal(-n)
  {
    if n >= 0 {
      assert IsDigitChar(NatDecimal(n)[0]);
    } else {
      assert ("-" + NatDecimal(-n))[1..] == NatDecimal(-n);
    }
  }

  /** Different integers print differently, so every `Level(n)` has its own name. */
  lemma IntToDecimalInjective(a: int, b: int)
    requires IntToDecimal(a) == IntToDecimal(b)
    ensures a == b
  {
    IntToDecimalSign(a);
    IntToDecimalSign(b);
    if a < 0 {
      NatDecimalInjective(-a, -b);
    } else {
      NatDecimalInjective(a, b);
    }
  }

  /** The dotted name pygments gives a token type, relative to the root `Token`. */
  function DottedName(t: TokenType): string {
    match t
    case Name => "Name"
    case NameConstant => "Name.Constant"
    case Punctuation => "Punctuation"
    case PunctuationError => "Punctuation.Error"
    case Level(n) => "Punctuation.Level" + IntToDecimal(n)
    case Other(name) => name
  }

  /** Two bracket-level tokens have the same dotted name exactly when their
      depths agree; so treating `Level(a)` and `Level(b)` as different token
      types when `a != b` agrees with pygments' lookup by name. */
  lemma LevelNamesDistinct(a: int, b: int)
    ensures DottedName(Level(a)) == DottedName(Level(b)) <==> a == b
  {
    var p := "Punctuation.Level";
    if DottedName(Level(a)) == DottedName(Level(b)) {
      assert IntToDecimal(a) == DottedName(Level(a))[|p|..];
      assert IntToDecimal(b) == DottedName(Level(b))[|p|..];
      IntToDecimalInjective(a, b);
    }
  }

  /** A token type as pygments has it: `Other` is never used for a name that
      one of the other constructors already stands for. */
  ghost predicate Canonical(t: TokenType) {
    t.Other? ==> forall u: TokenType :: !u.Other? ==> DottedName(u) != t.name
  }

  /** "Punctuation.Level" followed by anything is none of the fixed names. */
  lemma LevelNameNotFixed(n: int)
    ensures DottedName(Level(n)) != "Name"
    ensures DottedName(Level(n)) != "Name.Constant"
    ensures DottedName(Level(n)) != "Punctuation"
    ensures DottedName(Level(n)) != "Punctuation.Error"
  {
    var d := DottedName(Level(n));
    assert d[0] == 'P';
    assert |d| > |"Punctuation"|;
    assert d[12] == 'L';
  }

  /** On canonical token types the dotted name is injective: two of them are
      the same pygments token exactly when they are the same value here. */
  lemma DottedNameInjective(a: TokenType, b: TokenType)
    requires Canonical(a) && Canonical(b)
    ensures DottedName(a) == DottedName(b) <==> a == b
  {
    if DottedName(a) == DottedName(b) {
      if a.Level? {
        LevelNameNotFixed(a.n);
        if b.Level? {
          LevelNamesDistinct(a.n, b.n);
        }
      } else if b.Level? {
        LevelNameNotFixed(b.n);
      }
    }
  }
}
