/**
 * The part of the interactive prompt library the helper depends on. A list
 * question offers choices, each with a display name and a value, and its
 * answer object maps the question's name to the value of the choice picked.
 * Reading a property the answer object lacks yields JavaScript's
 * `undefined`, which is strictly equal to no string.
 */
module Prompt {

  datatype Choice<T> = Choice(name: string, value: T)

  /** A choice given as a bare string: it is shown and answered as itself. */
  function Plain(s: string): Choice<string> { Choice(s, s) }

  /** The answer object one prompt resolves to: question name to value. */
  type Answers = map<string, string>

  /** What reading a property of an answer object gives. */
  datatype Property = Undefined | Defined(value: string)

  /**
   * `answers[key]` as JavaScript reads it, for keys the object does not
   * inherit (properties such as `constructor` that every object inherits
   * are not modelled; none of them is ever read).
   */
  function Get(answers: Answers, key: string): (p: Property)
    ensures p.Defined? <==> key in answers
    ensures p.Defined? ==> p.value == answers[key]
  {
    if key in answers then Defined(answers[key]) else Undefined
  }

  /**
   * The answer object of a list question named `name` when the user picks
   * the choice at position `pick`: exactly one property, the picked value.
   */
  function ListAnswer(name: string, choices: seq<Choice<string>>, pick: nat): (a: Answers)
    requires pick < |choices|
    ensures a.Keys == {name}
    ensures Get(a, name) == Defined(choices[pick].value)
  {
    map[name := choices[pick].value]
  }

  /** Only the property named after the question is set in a list answer. */
  lemma OtherPropertiesUndefined(name: string, choices: seq<Choice<string>>, pick: nat, key: string)
    requires pick < |choices|
    requires key != name
    ensures Get(ListAnswer(name, choices, pick), key) == Undefined
  {
  }
}
