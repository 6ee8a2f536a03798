/** The rule-list edits that build the documentation's Python and Cython
    lexers out of pygments' own rule tables (docs/source/_ext/lexers.py).

    A pygments rule is a tuple `(regex, action[, new state])`. The tables
    themselves are data for the regular-expression engine and are not
    modelled; what is modelled is how the module finds a rule by the item at a
    given position of its tuple and splices a new rule into a list in place. */
module LexerRules {
  import opened Wrappers
  import opened Tokens

  /** An item of a rule tuple. */
  datatype Item =
    | Regex(pattern: string)
    | Action(token: TokenType)
    | ByGroups(tokens: seq<TokenType>)
    | NextState(state: string)

  type Rule = seq<Item>

  /** `_find(it, obj, key)`: the first index whose element satisfies
      `key(element, obj)`; `None` stands for the `IndexError` raised when no
      element does. */
  method Find<T, U>(it: seq<T>, obj: U, key: (T, U) -> bool) returns (r: Option<nat>)
    ensures r.Some? ==> r.value < |it| && key(it[r.value], obj)
    ensures r.Some? ==> forall j :: 0 <= j < r.value ==> !key(it[j], obj)
    ensures r.None? ==> forall j :: 0 <= j < |it| ==> !key(it[j], obj)
  {
    var n := 0;
    while n < |it|
      invariant 0 <= n <= |it|
      invariant forall j :: 0 <= j < n ==> !key(it[j], obj)
    {
      if key(it[n], obj) {
        return Some(n);
      }
      n := n + 1;
    }
    return None;
  }

  /** `_get_index(n)`: the key "item `n` of the rule equals the object". A rule
      too short to have item `n` does not match. */
  function GetIndex(n: nat): (key: (Rule, Item) -> bool)
    ensures forall a: Rule, b: Item | n < |a| :: key(a, b) <==> a[n] == b
    ensures forall a: Rule, b: Item | |a| <= n :: !key(a, b)
  {
    (a: Rule, b: Item) => n < |a| && a[n] == b
  }

  /** Where Python's `list.insert(i, x)` puts `x` in a list of length `len`:
      negative indices count from the end, and out-of-range ones are clamped. */
  function InsertPoint(i: int, len: int): (k: nat)
    requires len >= 0
    ensures k <= len
    ensures 0 <= i <= len ==> k == i
    ensures i > len ==> k == len
    ensures 0 - len <= i < 0 ==> k == i + len
    ensures i < 0 - len ==> k == 0
  {
    if i < 0 then (if i + len < 0 then 0 else i + len)
    else if i > len then len
    else i
  }

  /** A pygments rule list, which the module updates in place. */
  class RuleList {
    var rules: seq<Rule>

    constructor (initial: seq<Rule>)
      ensures rules == initial
    {
      rules := initial;
    }

    /** `list.insert(i, x)`. */
    method Insert(i: int, x: Rule)
      modifies this
      ensures var k := InsertPoint(i, |old(rules)|);
        rules == old(rules)[..k] + [x] + old(rules)[k..]
    {
      var k := InsertPoint(i, |rules|);
      rules := rules[..k] + [x] + rules[k..];
    }

    /** `list.append(x)`. */
    method Append(x: Rule)
      modifies this
      ensures rules == old(rules) + [x]
    {
      rules := rules + [x];
    }

    /** `list[i] = x`; `ok` is false for the `IndexError` of an index outside
        the list, which leaves it unchanged. */
    method SetItem(i: int, x: Rule) returns (ok: bool)
      modifies this
      ensures ok == (-|old(rules)| <= i < |old(rules)|)
      ensures ok ==> rules == old(rules)[(if i < 0 then i + |old(rules)| else i) := x]
      ensures !ok ==> rules == old(rules)
    {
      ok := -|rules| <= i < |rules|;
      if ok {
        rules := rules[(if i < 0 then i + |rules| else i) := x];
      }
    }
  }

  /** The rule that tags an identifier followed by `(` as a function name. */
  const FunctionCallRule: Rule :=
    [Regex("\\b([a-zA-Z_]\\w*)(?=\\s*\\()"), Action(Other("Name.Function"))]

  /** The Cython replacement for the pseudo-builtins rule. */
  const PseudoBuiltinRule: Rule :=
    [Regex("(?<!\\.)(self|cls|Ellipsis|NotImplemented)\\b"), Action(Other("Name.Builtin.Pseudo"))]

  /** `tokens["name"].insert(_find(tokens["name"], Name, _get_index(1)), rule)`:
      the rule goes immediately before the first rule whose action is `Name`;
      the rules before it are unchanged and those after it move up by one. When
      there is no such rule, `_find` raises and the list is left as it was. */
  method InsertBeforeFirstName(names: RuleList, rule: Rule) returns (pos: Option<nat>)
    modifies names
    ensures pos.None? ==> names.rules == old(names.rules)
    ensures pos.None? ==> forall j :: 0 <= j < |old(names.rules)| ==> !GetIndex(1)(old(names.rules)[j], Action(Name))
    ensures pos.Some? ==>
      var p, rs := pos.value, old(names.rules);
      && p < |rs|
      && GetIndex(1)(rs[p], Action(Name))
      && (forall j :: 0 <= j < p ==> !GetIndex(1)(rs[j], Action(Name)))
      && names.rules == rs[..p] + [rule] + rs[p..]
      && |names.rules| == |rs| + 1
      && names.rules[p] == rule
      && (forall j :: 0 <= j < p ==> names.rules[j] == rs[j])
      && (forall j :: p <= j < |rs| ==> names.rules[j + 1] == rs[j])
  {
    pos := Find(names.rules, Action(Name), GetIndex(1));
    if pos.Some? {
      names.Insert(pos.value, rule);
    }
  }

  /** `builtins[_find(builtins, Name.Builtin.Pseudo, _get_index(1))] = rule`:
      the first pseudo-builtin rule is replaced, the list keeps its length and
      every other slot. When there is none, `_find` raises and nothing changes. */
  method ReplaceFirstPseudoBuiltin(builtins: RuleList, rule: Rule) returns (pos: Option<nat>)
    modifies builtins
    ensures pos.None? ==> builtins.rules == old(builtins.rules)
    ensures pos.None? ==> forall j :: 0 <= j < |old(builtins.rules)| ==>
      !GetIndex(1)(old(builtins.rules)[j], Action(Other("Name.Builtin.Pseudo")))
    ensures pos.Some? ==>
      var p, rs := pos.value, old(builtins.rules);
      && p < |rs|
      && GetIndex(1)(rs[p], Action(Other("Name.Builtin.Pseudo")))
      && (forall j :: 0 <= j < p ==> !GetIndex(1)(rs[j], Action(Other("Name.Builtin.Pseudo"))))
      && |builtins.rules| == |rs|
      && builtins.rules[p] == rule
      && (forall j :: 0 <= j < |rs| && j != p ==> builtins.rules[j] == rs[j])
  {
    pos := Find(builtins.rules, Action(Other("Name.Builtin.Pseudo")), GetIndex(1));
    if pos.Some? {
      var ok := builtins.SetItem(pos.value, rule);
    }
  }
}
