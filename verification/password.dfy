/** The password validator of the login page (`validatePassword`): five rules, checked in a
    fixed order, each failing rule contributing one literal message. */
module Password {
  import opened Text

  /** The rules, in the order their messages are listed. */
  datatype Rule = MinLength | HasLowercase | HasUppercase | HasDigit | HasSpecial

  const Rules: seq<Rule> := [MinLength, HasLowercase, HasUppercase, HasDigit, HasSpecial]

  const MinimumLength: nat := 8

  /** The characters accepted by the class `[@$!%*?&]`. */
  const SpecialCharacters: string := "@$!%*?&"

  /** The character classes the four pattern tests look for. */
  datatype CharClass = Lowercase | Uppercase | Digit | Special

  predicate InClass(c: char, k: CharClass) {
    match k
    case Lowercase => IsAsciiLower(c)
    case Uppercase => IsAsciiUpper(c)
    case Digit => IsAsciiDigit(c)
    case Special => c in SpecialCharacters
  }

  /** Some character of `p` belongs to class `k`. */
  ghost predicate HasCharIn(p: string, k: CharClass) {
    exists i :: 0 <= i < |p| && InClass(p[i], k)
  }

  /** A test such as `/(?=.*[a-z])/.test(p)`: the lookahead succeeds at the position just
      before any matching character, so the test holds iff such a character exists.
      Scans from the left. */
  function TestClass(p: string, k: CharClass): (r: bool)
    ensures r <==> HasCharIn(p, k)
    decreases |p|
  {
    if p == [] then false
    else if InClass(p[0], k) then true
    else
      assert forall i :: 1 <= i < |p| ==> p[i] == p[1..][i - 1];
      TestClass(p[1..], k)
  }

  /** The literal message shown for a failed rule. */
  function Message(rule: Rule): string {
    match rule
    case MinLength => "Password should be at least 8 characters long."
    case HasLowercase => "Password should contain at least 1 lowercase letter."
    case HasUppercase => "Password should contain at least 1 uppercase letter."
    case HasDigit => "Password should contain at least 1 digit."
    case HasSpecial => "Password should contain at least 1 special character."
  }

  /** The rule as stated in words: `p` breaks it. */
  ghost predicate Violates(p: string, rule: Rule) {
    match rule
    case MinLength => |p| < MinimumLength
    case HasLowercase => !HasCharIn(p, Lowercase)
    case HasUppercase => !HasCharIn(p, Uppercase)
    case HasDigit => !HasCharIn(p, Digit)
    case HasSpecial => !HasCharIn(p, Special)
  }

  /** A password every rule accepts. */
  ghost predicate Acceptable(p: string) {
    && |p| >= MinimumLength
    && HasCharIn(p, Lowercase)
    && HasCharIn(p, Uppercase)
    && HasCharIn(p, Digit)
    && HasCharIn(p, Special)
  }

  /** One step of the validator: appends `rule`'s message when `failed`. */
  function Check(errors: seq<string>, failed: bool, rule: Rule): seq<string> {
    if failed then errors + [Message(rule)] else errors
  }

  /** The same step, tracking the broken rules instead of their messages. */
  function CheckRule(rules: seq<Rule>, failed: bool, rule: Rule): seq<Rule> {
    if failed then rules + [rule] else rules
  }

  function RuleIndex(rule: Rule): nat {
    match rule
    case MinLength => 0
    case HasLowercase => 1
    case HasUppercase => 2
    case HasDigit => 3
    case HasSpecial => 4
  }

  /** Rules listed in rule order, each at most once. */
  ghost predicate InRuleOrder(rules: seq<Rule>) {
    forall i, j :: 0 <= i < j < |rules| ==> RuleIndex(rules[i]) < RuleIndex(rules[j])
  }

  /** The rules `p` breaks: exactly those, each once, in rule order. */
  function ViolatedRules(p: string): (rules: seq<Rule>)
    ensures InRuleOrder(rules)
    ensures forall rule: Rule :: rule in rules <==> Violates(p, rule)
  {
    var r1 := CheckRule([], |p| < MinimumLength, MinLength);
    CheckRuleStep([], |p| < MinimumLength, MinLength);
    var r2 := CheckRule(r1, !TestClass(p, Lowercase), HasLowercase);
    CheckRuleStep(r1, !TestClass(p, Lowercase), HasLowercase);
    var r3 := CheckRule(r2, !TestClass(p, Uppercase), HasUppercase);
    CheckRuleStep(r2, !TestClass(p, Uppercase), HasUppercase);
    var r4 := CheckRule(r3, !TestClass(p, Digit), HasDigit);
    CheckRuleStep(r3, !TestClass(p, Digit), HasDigit);
    CheckRuleStep(r4, !TestClass(p, Special), HasSpecial);
    var r5 := CheckRule(r4, !TestClass(p, Special), HasSpecial);
    BrokenRules(p, r5);
    r5
  }

  /** A list holding each rule exactly when its test fails holds exactly the broken rules. */
  lemma BrokenRules(p: string, rules: seq<Rule>)
    requires forall x :: x in rules <==>
      || (x == MinLength && |p| < MinimumLength)
      || (x == HasLowercase && !TestClass(p, Lowercase))
      || (x == HasUppercase && !TestClass(p, Uppercase))
      || (x == HasDigit && !TestClass(p, Digit))
      || (x == HasSpecial && !TestClass(p, Special))
    ensures forall rule: Rule :: rule in rules <==> Violates(p, rule)
  {
    forall rule: Rule
      ensures rule in rules <==> Violates(p, rule)
    {
      match rule
      case MinLength =>
      case HasLowercase =>
      case HasUppercase =>
      case HasDigit =>
      case HasSpecial =>
    }
  }

  /** A step keeps the list in rule order when `rule` comes after everything listed. */
  lemma CheckRuleStep(rules: seq<Rule>, failed: bool, rule: Rule)
    requires InRuleOrder(rules)
    requires forall x :: x in rules ==> RuleIndex(x) < RuleIndex(rule)
    ensures InRuleOrder(CheckRule(rules, failed, rule))
    ensures forall x :: x in CheckRule(rules, failed, rule) <==> x in rules || (failed && x == rule)
    ensures forall x :: x in CheckRule(rules, failed, rule) ==> RuleIndex(x) <= RuleIndex(rule)
  {
  }

  /** The messages of a list of rules, in the same order. */
  function Messages(rules: seq<Rule>): (ms: seq<string>)
    ensures |ms| == |rules|
    ensures forall i :: 0 <= i < |rules| ==> ms[i] == Message(rules[i])
  {
    seq(|rules|, i requires 0 <= i < |rules| => Message(rules[i]))
  }

  lemma CheckMessages(rules: seq<Rule>, failed: bool, rule: Rule)
    ensures Check(Messages(rules), failed, rule) == Messages(CheckRule(rules, failed, rule))
  {
  }

  /** `validatePassword(p)`: the messages of the rules `p` breaks, in rule order; empty
      iff `p` is acceptable. */
  function ValidatePassword(p: string): (errors: seq<string>)
    ensures errors == Messages(ViolatedRules(p))
    ensures errors == [] <==> Acceptable(p)
  {
    var e1 := Check([], |p| < MinimumLength, MinLength);
    var e2 := Check(e1, !TestClass(p, Lowercase), HasLowercase);
    var e3 := Check(e2, !TestClass(p, Uppercase), HasUppercase);
    var e4 := Check(e3, !TestClass(p, Digit), HasDigit);
    var e5 := Check(e4, !TestClass(p, Special), HasSpecial);
    var r1 := CheckRule([], |p| < MinimumLength, MinLength);
    var r2 := CheckRule(r1, !TestClass(p, Lowercase), HasLowercase);
    var r3 := CheckRule(r2, !TestClass(p, Uppercase), HasUppercase);
    var r4 := CheckRule(r3, !TestClass(p, Digit), HasDigit);
    assert Messages([]) == [];
    CheckMessages([], |p| < MinimumLength, MinLength);
    CheckMessages(r1, !TestClass(p, Lowercase), HasLowercase);
    CheckMessages(r2, !TestClass(p, Uppercase), HasUppercase);
    CheckMessages(r3, !TestClass(p, Digit), HasDigit);
    CheckMessages(r4, !TestClass(p, Special), HasSpecial);
    e5
  }

  /** Different rules have different messages. */
  lemma MessageInjective(a: Rule, b: Rule)
    ensures Message(a) == Message(b) ==> a == b
  {
    // the five messages differ at position 35
    assert Message(a)[35] == KeyCharacter(a) && Message(b)[35] == KeyCharacter(b);
  }

  /** The character at position 35 of a rule's message. */
  function KeyCharacter(rule: Rule): char {
    match rule
    case MinLength => 'c'
    case HasLowercase => 'l'
    case HasUppercase => 'u'
    case HasDigit => 'd'
    case HasSpecial => 's'
  }

  /** Messages of rules listed in rule order: a rule's message is present iff the rule is,
      no message appears twice, and there are at most five. */
  lemma {:induction false} ReadMessages(rules: seq<Rule>)
    requires InRuleOrder(rules)
    ensures forall rule: Rule :: Message(rule) in Messages(rules) <==> rule in rules
    ensures forall i, j :: 0 <= i < j < |rules| ==> Messages(rules)[i] != Messages(rules)[j]
    ensures |rules| <= 5
  {
    var ms := Messages(rules);
    forall rule: Rule
      ensures Message(rule) in ms <==> rule in rules
    {
      if Message(rule) in ms {
        var i :| 0 <= i < |ms| && ms[i] == Message(rule);
        MessageInjective(rule, rules[i]);
      }
    }
    forall i, j | 0 <= i < j < |rules|
      ensures ms[i] != ms[j]
    {
      MessageInjective(rules[i], rules[j]);
    }
    var n := 0;
    while n < |rules|
      invariant n <= |rules|
      invariant forall i :: 0 <= i < n ==> RuleIndex(rules[i]) >= i
    {
      if n > 0 {
        assert RuleIndex(rules[n - 1]) < RuleIndex(rules[n]);
      }
      n := n + 1;
    }
    if |rules| > 0 {
      assert RuleIndex(rules[|rules| - 1]) >= |rules| - 1;
    }
  }

  /** The validator's list, message by message: a rule's message is present iff `p` breaks
      that rule, no message appears twice, and there are at most five. */
  lemma ValidationReport(p: string)
    ensures forall rule: Rule :: Message(rule) in ValidatePassword(p) <==> Violates(p, rule)
    ensures forall i, j :: 0 <= i < j < |ValidatePassword(p)| ==> ValidatePassword(p)[i] != ValidatePassword(p)[j]
    ensures |ValidatePassword(p)| <= 5
  {
    ReadMessages(ViolatedRules(p));
  }

  /** The length message is present iff `p` has fewer than eight characters. */
  lemma LengthMessage(p: string)
    ensures Message(MinLength) in ValidatePassword(p) <==> |p| < 8
  {
  }

  /** The lowercase, uppercase, digit and special messages are each present iff `p` has no
      character of the class the rule asks for. */
  lemma ClassMessages(p: string)
    ensures Message(HasLowercase) in ValidatePassword(p) <==> forall i :: 0 <= i < |p| ==> !('a' <= p[i] <= 'z')
    ensures Message(HasUppercase) in ValidatePassword(p) <==> forall i :: 0 <= i < |p| ==> !('A' <= p[i] <= 'Z')
    ensures Message(HasDigit) in ValidatePassword(p) <==> forall i :: 0 <= i < |p| ==> !('0' <= p[i] <= '9')
    ensures Message(HasSpecial) in ValidatePassword(p) <==> forall i :: 0 <= i < |p| ==> p[i] !in "@$!%*?&"
  {
    ValidationReport(p);
    assert Message(HasLowercase) in ValidatePassword(p) <==> Violates(p, HasLowercase);
    assert Message(HasUppercase) in ValidatePassword(p) <==> Violates(p, HasUppercase);
    assert Message(HasDigit) in ValidatePassword(p) <==> Violates(p, HasDigit);
    assert Message(HasSpecial) in ValidatePassword(p) <==> Violates(p, HasSpecial);
  }
}
