/** addBase26 of pkg/agentmap, and the environment prefixes that are made with it. */
module Base26 {
  import opened Arithmetic
  import EnvValues
  import Interpolation

  /** The first letter of an alphabet: 'A' or 'a'. */
  type First = c: char | c == 'A' || c == 'a' witness 'A'

  type Digit = l: nat | l < 26

  function Letter(c: First, l: Digit): char {
    (c as int + l) as char
  }

  function Digits(c: First, v: nat): (s: string)
    ensures s != ""
  {
    if v < 26 then [Letter(c, v)] else Digits(c, v / 26) + [Letter(c, v % 26)]
  }

  /** How many numbers have at most `n` digits. */
  function Room(n: nat): (r: nat)
    ensures r >= 1
  {
    if n == 0 then 1 else 26 * Room(n - 1)
  }

  lemma {:induction false} LengthExactly(c: First, v: nat, n: nat)
    requires n >= 1
    ensures |Digits(c, v)| <= n <==> v < Room(n)
    decreases n
  {
    if n == 1 {
      assert Room(1) == 26 * Room(0);
    } else if v >= 26 {
      LengthExactly(c, v / 26, n - 1);
    }
  }

  /** One round of the loop: the last digit moves in front of what is there, and a byte of room is used. */
  lemma OneDigit(c: First, v: nat, i: nat, after: string)
    requires 26 <= v < Room(i)
    ensures i >= 2 && v / 26 < Room(i - 1)
    ensures Digits(c, v / 26) + ([Letter(c, v % 26)] + after) == Digits(c, v) + after
  {
    assert Room(1) == 26 * Room(0);
  }

  /** The buffer of 14 bytes is filled from the end and never runs out, for any 64-bit number. */
  method AddBase26(c: First, value: nat) returns (s: string)
    requires value < TWO_TO_THE_64
    ensures s == Digits(c, value)
  {
    var i: nat, v: nat := 14, value;
    var b := new char[14];
    assert b[14..] == [];
    while v >= 26
      invariant 1 <= i <= 14 && v < Room(i)
      invariant Digits(c, v) + b[i..] == Digits(c, value)
      decreases v
    {
      OneDigit(c, v, i, b[i..]);
      i := Prepend(b, i, Letter(c, v % 26));
      v := v / 26;
    }
    i := Prepend(b, i, Letter(c, v));
    s := b[i..];
  }

  /** Fill the buffer from the end: one more letter in front. */
  method Prepend(b: array<char>, at: nat, letter: char) returns (i: nat)
    requires 1 <= at <= b.Length
    modifies b
    ensures i == at - 1 && b[i..] == [letter] + old(b[at..])
  {
    i := at - 1;
    b[i] := letter;
  }

  /** Fourteen bytes are needed. */
  lemma FourteenDigits(c: First)
    ensures |Digits(c, TWO_TO_THE_64 - 1)| == 14
  {
    LengthExactly(c, TWO_TO_THE_64 - 1, 14);
    LengthExactly(c, TWO_TO_THE_64 - 1, 13);
  }

  function ValueOf(c: First, s: string): int {
    if s == "" then 0 else 26 * ValueOf(c, s[..|s| - 1]) + (s[|s| - 1] as int - c as int)
  }

  lemma {:induction false} DigitsAreRead(c: First, v: nat)
    ensures ValueOf(c, Digits(c, v)) == v
  {
    if v < 26 {
      assert Digits(c, v)[..0] == "";
    } else {
      DigitsAreRead(c, v / 26);
      assert Digits(c, v)[..|Digits(c, v)| - 1] == Digits(c, v / 26);
    }
  }

  lemma {:induction false} DigitsAreLetters(c: First, v: nat)
    ensures forall i :: 0 <= i < |Digits(c, v)| ==> c <= Digits(c, v)[i] < (c as int + 26) as char
  {
    if v >= 26 {
      DigitsAreLetters(c, v / 26);
    }
  }

  lemma DigitsAreInjective(c: First, v: nat, w: nat)
    requires Digits(c, v) == Digits(c, w)
    ensures v == w
  {
    DigitsAreRead(c, v);
    DigitsAreRead(c, w);
  }

  // ---------- Environment variables ----------

  const ENV_PREFIX_APP := "_TEL_APP_"

  /** The prefix of the container at `index` of a sidecar. */
  function EnvPrefix(index: nat): string {
    Digits('A', index) + "_"
  }

  /** The name that a variable of that container has in the traffic-agent. */
  function CopiedName(index: nat, name: string): string {
    ENV_PREFIX_APP + EnvPrefix(index) + name
  }

  datatype EnvVar = EnvVar(name: string, value: string)

  /** The variable as it is copied: the references in its value get the prefix as well. */
  function Copied(index: nat, e: EnvVar): EnvVar {
    EnvVar(CopiedName(index, e.name), EnvValues.ReplaceAll(e.value, ENV_PREFIX_APP + EnvPrefix(index)))
  }

  method AppendAppContainerEnv(index: nat, env: seq<EnvVar>, es: seq<EnvVar>) returns (r: seq<EnvVar>)
    ensures |r| == |es| + |env| && r[..|es|] == es
    ensures forall i :: 0 <= i < |env| ==> r[|es| + i] == Copied(index, env[i])
  {
    var pfx := ENV_PREFIX_APP + EnvPrefix(index);
    r := es;
    for i := 0 to |env|
      invariant |r| == |es| + i && r[..|es|] == es
      invariant forall k :: 0 <= k < i ==> r[|es| + k] == Copied(index, env[k])
    {
      var e := env[i];
      r := r + [EnvVar(pfx + e.name, EnvValues.ReplaceAll(e.value, pfx))];
    }
  }

  /** Letters up to the first underscore: where a prefix ends. */
  lemma SplitAtUnderscore(a: string, b: string, x: string, y: string)
    requires '_' !in a && '_' !in b
    requires a + "_" + x == b + "_" + y
    ensures a == b && x == y
  {
    var s, t := a + "_" + x, b + "_" + y;
    assert s[|a|] == '_' && forall i :: 0 <= i < |a| ==> s[i] == a[i];
    assert t[|b|] == '_' && forall i :: 0 <= i < |b| ==> t[i] == b[i];
    assert |a| == |b|;
    assert s[..|a|] == a && t[..|b|] == b;
    assert s[|a| + 1..] == x && s[|a| + 1..] == y;
  }

  /** Variables that were copied from different containers never get the same name, and those of one container
      stay different. */
  lemma CopiedNamesDiffer(i: nat, j: nat, name1: string, name2: string)
    ensures CopiedName(i, name1) == CopiedName(j, name2) <==> i == j && name1 == name2
  {
    if CopiedName(i, name1) == CopiedName(j, name2) {
      var a, b := Digits('A', i), Digits('A', j);
      DigitsAreLetters('A', i);
      DigitsAreLetters('A', j);
      assert CopiedName(i, name1)[|ENV_PREFIX_APP|..] == a + "_" + name1;
      assert CopiedName(j, name2)[|ENV_PREFIX_APP|..] == b + "_" + name2;
      SplitAtUnderscore(a, b, name1, name2);
      DigitsAreInjective('A', i, j);
    }
  }

  lemma PrefixHasNoSpecials(index: nat)
    ensures Interpolation.Clean(ENV_PREFIX_APP + EnvPrefix(index))
  {
    DigitsAreLetters('A', index);
  }

  /** The prefix of a container can be written into `$(NAME)` expressions, again and again. */
  lemma PrefixIsClean(index: nat, text: string, other: string)
    ensures var pfx := ENV_PREFIX_APP + EnvPrefix(index);
            Interpolation.Rewrite(Interpolation.Rewrite(text, pfx), other) == Interpolation.Rewrite(text, other + pfx)
  {
    PrefixHasNoSpecials(index);
    Interpolation.PrefixesCompose(text, ENV_PREFIX_APP + EnvPrefix(index), other);
  }

  /** The value of a copied variable is what prefixInterpolated would make of it, if and only if it is plain. */
  lemma CopiedValueExactly(index: nat, e: EnvVar)
    ensures Copied(index, e).value == Interpolation.Rewrite(e.value, ENV_PREFIX_APP + EnvPrefix(index)) <==>
              EnvValues.Plain(e.value)
  {
    PrefixHasNoSpecials(index);
    EnvValues.AgreeExactly(e.value, ENV_PREFIX_APP + EnvPrefix(index));
  }
}
