/**
 * The earlier revision of the helper (main.js). It asks only for a prefix
 * and a username and reads the short commit hash; it builds no branch name.
 * Its prefix choices are bare labels, so the answer is the whole label,
 * description included.
 */
module NlgcLegacy {
  import opened JsText
  import opened Prompt
  import Nlgc

  /** The label that asks for a prefix to be typed in. */
  const TypeYourOwn := "自己输入"

  /** The choices are bare labels: each is shown and answered as itself. */
  const PrefixChoices: seq<Choice<string>> := [
    Plain("feature  (功能开发)"),
    Plain("release  (集成测试)"),
    Plain("hotfix   (问题修复)"),
    Plain(TypeYourOwn)
  ]

  /**
   * `getPrefix`: the text typed at the follow-up question when the last
   * label is picked, and otherwise the picked label itself, verbatim.
   */
  function GetPrefix(pick: nat, typed: string): (r: string)
    requires pick < |PrefixChoices|
    ensures pick == 3 ==> r == typed
    ensures pick < 3 ==> r == ["feature  (功能开发)", "release  (集成测试)", "hotfix   (问题修复)"][pick]
  {
    var answer1 := ListAnswer("prefix", PrefixChoices, pick);
    if answer1["prefix"] == TypeYourOwn then typed else answer1["prefix"]
  }

  /**
   * A listed prefix keeps its description: picking the first label gives
   * `feature  (功能开发)`, not the bare category the later revision returns,
   * and no listed label is `release`, the one prefix that revision offers an
   * environment list for.
   */
  lemma PrefixKeepsLabel(pick: nat, typed: string)
    requires pick < 3
    ensures GetPrefix(0, typed) == "feature  (功能开发)"
    ensures GetPrefix(pick, typed) != Nlgc.PrefixChoices[pick + 1].value
    ensures GetPrefix(pick, typed) !in Nlgc.ListedDetailPrefixes
  {
  }

  const UserNameChoices: seq<Choice<string>> := [
    Plain("my"), Plain("wy"), Plain("xxl"), Plain("qxq"), Plain("zl"), Plain(Nlgc.ManualEntry)
  ]

  /**
   * `getUserName`, with the same slip as the later revision: the manual
   * entry is tested on the never-set property `question2`, so the picked
   * value is always returned and nothing typed is ever used.
   */
  function GetUserName(pick: nat, typed: string): (r: string)
    requires pick < |UserNameChoices|
    ensures r == UserNameChoices[pick].value
  {
    var answer2 := ListAnswer("username", UserNameChoices, pick);
    if Get(answer2, "question2") == Defined(Nlgc.ManualEntry) then typed else answer2["username"]
  }

  /** Picking the manual entry gives the label itself, whatever was typed. */
  lemma ManualUserNameIsLiteral(typed: string)
    ensures GetUserName(5, typed) == Nlgc.ManualEntry
  {
  }

  /**
   * `getCurrentBranchLastCommit`, identical to the later revision: the first
   * eight characters of the trimmed hash git prints.
   */
  function GetCurrentBranchLastCommit(log: string): (r: string)
    ensures |r| == Min(8, |log|)
    ensures r == log[..|r|]
    ensures r == Nlgc.ShortCommit(log)
  {
    Slice(log, 0, 8)
  }
}
