/** The bracket-colour helpers of the documentation build (docs/source/_ext/utils.py):
    bracket-depth token types and the table that gives each depth its colour. */
module Utils {
  import opened Tokens

  /** `get_bracket_level(n)`: the token type looked up under the name
      "Punctuation.Level{n}". */
  function GetBracketLevel(n: int): (t: TokenType)
    ensures DottedName(t) == "Punctuation.Level" + IntToDecimal(n)
    ensures t.Level?
  {
    Level(n)
  }

  /** `nbrackets(n)`: the first `n` level tokens, in increasing depth; nothing
      when `n` is zero or negative (as `range(n)` yields nothing). */
  function NBrackets(n: int): (r: seq<TokenType>)
    ensures |r| == if n > 0 then n else 0
    ensures forall j :: 0 <= j < |r| ==> r[j] == Level(j)
  {
    if n <= 0 then [] else NBrackets(n - 1) + [GetBracketLevel(n - 1)]
  }

  /** `dynamic_brackets(colors)`: pairs each level token with the colour of the
      same index. */
  function DynamicBrackets(colors: seq<string>): (r: seq<(TokenType, string)>)
    ensures |r| == |colors|
    ensures forall i :: 0 <= i < |r| ==> r[i] == (Level(i), colors[i])
  {
    var keys := NBrackets(|colors|);
    seq(|keys|, i requires 0 <= i < |keys| => (keys[i], colors[i]))
  }

  /** Python's `dict(pairs)`: every key of the pairs is present, and a key
      repeated in the list keeps the value of its last pair. */
  function DictOf<K, V>(pairs: seq<(K, V)>): (m: map<K, V>)
    ensures m.Keys == set i | 0 <= i < |pairs| :: pairs[i].0
    ensures forall i :: 0 <= i < |pairs| && (forall j :: i < j < |pairs| ==> pairs[j].0 != pairs[i].0)
              ==> pairs[i].0 in m && m[pairs[i].0] == pairs[i].1
  {
    if pairs == [] then map[]
    else
      var init := pairs[..|pairs| - 1];
      var last := pairs[|pairs| - 1];
      var m := DictOf(init)[last.0 := last.1];
      assert forall i :: 0 <= i < |pairs| - 1 ==> pairs[i] == init[i];
      m
  }

  /** The depths `0 .. n-1` as level tokens; there are exactly `n` of them. */
  ghost function LevelsBelow(n: nat): set<TokenType> {
    set i | 0 <= i < n :: Level(i)
  }

  lemma {:induction false} LevelsBelowSize(n: nat)
    ensures |LevelsBelow(n)| == n
  {
    if n > 0 {
      LevelsBelowSize(n - 1);
      assert LevelsBelow(n) == LevelsBelow(n - 1) + {Level(n - 1)};
      assert Level(n - 1) !in LevelsBelow(n - 1);
    } else {
      assert LevelsBelow(n) == {};
    }
  }

  /** The keys of the dictionary built from `dynamic_brackets(colors)` are
      the first `|colors|` depths. */
  lemma DynamicKeys(colors: seq<string>)
    ensures DictOf(DynamicBrackets(colors)).Keys == LevelsBelow(|colors|)
  {
    var pairs := DynamicBrackets(colors);
    var keys := DictOf(pairs).Keys;
    forall t | t in keys ensures t in LevelsBelow(|colors|) {
      var i :| 0 <= i < |pairs| && pairs[i].0 == t;
    }
    forall t | t in LevelsBelow(|colors|) ensures t in keys {
      var i :| 0 <= i < |colors| && t == Level(i);
      assert pairs[i].0 == t;
    }
  }

  /** No two pairs of `dynamic_brackets(colors)` share a key, so every colour
      survives in the dictionary. */
  lemma DynamicValues(colors: seq<string>)
    ensures forall i :: 0 <= i < |colors| ==>
      Level(i) in DictOf(DynamicBrackets(colors)) && DictOf(DynamicBrackets(colors))[Level(i)] == colors[i]
  {
    var pairs := DynamicBrackets(colors);
    forall i | 0 <= i < |colors| ensures Level(i) in DictOf(pairs) && DictOf(pairs)[Level(i)] == colors[i] {
      assert pairs[i].0 == Level(i);
    }
  }

  /** `get_brackets(colors)`: one key per colour, the key of colour `i` being
      `Level(i)`. */
  function GetBrackets(colors: seq<string>): (r: map<TokenType, string>)
    ensures r.Keys == LevelsBelow(|colors|)
    ensures |r| == |colors|
    ensures forall i :: 0 <= i < |colors| ==> Level(i) in r && r[Level(i)] == colors[i]
  {
    DynamicKeys(colors);
    DynamicValues(colors);
    LevelsBelowSize(|colors|);
    DictOf(DynamicBrackets(colors))
  }
}
