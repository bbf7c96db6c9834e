/**
 * The branch-name helper in its current revision (dist/main.js). The script
 * asks for a prefix and a username, reads the short hash of the current
 * branch's last commit, then asks for a detail, a separator and whether to
 * add the date, and creates the branch named by joining those parts.
 *
 * Every prompt answer is a parameter here: a list question is answered by
 * the position of the picked choice, a free-text question by the text
 * typed. The last-commit output of git and the calendar date are
 * parameters too; creating the branch is not modelled.
 */
module Nlgc {
  import opened JsText
  import opened Prompt

  // ---------------------------------------------------------------- prefix

  /** The value that asks for a prefix to be typed in. */
  const CustomPrefix := "custom"

  const PrefixChoices: seq<Choice<string>> := [
    Choice("dev  (功能开发)", "dev"),
    Choice("feature  (功能开发)", "feature"),
    Choice("release  (集成测试)", "release"),
    Choice("hotfix   (问题修复)", "hotfix"),
    Choice("refactor (项目重构)", "refactor"),
    Choice("自己输入", CustomPrefix)
  ]

  /**
   * `getPrefix`: the picked value, except that the custom entry stands for
   * the text typed at the follow-up question.
   */
  function GetPrefix(pick: nat, typed: string): (r: string)
    requires pick < |PrefixChoices|
    ensures pick == 5 ==> r == typed
    ensures pick < 5 ==> r == ["dev", "feature", "release", "hotfix", "refactor"][pick]
  {
    var answer1 := ListAnswer("prefix", PrefixChoices, pick);
    if answer1["prefix"] == CustomPrefix then typed else answer1["prefix"]
  }

  /** The typed text is used exactly when the custom entry is picked. */
  lemma GetPrefixUsesTypedOnlyForCustom(pick: nat, typed: string, other: string)
    requires pick < |PrefixChoices|
    ensures PrefixChoices[pick].value == CustomPrefix ==> GetPrefix(pick, typed) == typed
    ensures PrefixChoices[pick].value != CustomPrefix ==>
      GetPrefix(pick, typed) == PrefixChoices[pick].value == GetPrefix(pick, other)
  {
  }

  // -------------------------------------------------------------- username

  /** The entry that is meant to ask for a username to be typed in. */
  const ManualEntry := "手动输入"

  const UserNameChoices: seq<Choice<string>> := [
    Plain("my"), Plain("wy"), Plain("xxl"), Plain("qxq"), Plain("zl"), Plain("cyl"), Plain(ManualEntry)
  ]

  /**
   * `getUserName`. The test for the manual entry reads the property
   * `question2`, which the answer object (keyed `username`) never has, so it
   * is always `undefined`: the picked value is returned in every case, the
   * manual entry included, and the typed text is never used.
   */
  function GetUserName(pick: nat, typed: string): (r: string)
    requires pick < |UserNameChoices|
    ensures r == UserNameChoices[pick].value
  {
    var answer2 := ListAnswer("username", UserNameChoices, pick);
    if Get(answer2, "question2") == Defined(ManualEntry) then typed else answer2["username"]
  }

  /** Picking the manual entry gives that label itself as the username. */
  lemma ManualUserNameIsLiteral(typed: string)
    ensures GetUserName(6, typed) == ManualEntry
  {
  }

  /** Whatever is picked, the username does not depend on any typed text. */
  lemma UserNameIgnoresTyped(pick: nat, typed: string, other: string)
    requires pick < |UserNameChoices|
    ensures GetUserName(pick, typed) == GetUserName(pick, other)
    ensures GetUserName(pick, typed) != typed || typed == UserNameChoices[pick].value
  {
  }

  // ---------------------------------------------------------------- commit

  /**
   * `getCurrentBranchLastCommit` after git has answered: the first eight
   * characters of the (already trimmed) abbreviated hash, or all of it when
   * it is shorter.
   */
  function ShortCommit(log: string): (r: string)
    ensures |r| == Min(8, |log|)
    ensures r == log[..|r|]
  {
    Slice(log, 0, 8)
  }

  // ---------------------------------------------------------------- detail

  /** The only prefix whose detail is picked from a list. */
  const ListedDetailPrefixes := ["release"]

  const DetailChoices: seq<Choice<string>> := [
    Plain("master"), Plain("ent_sbux"), Plain("ent_yum"), Plain("ent_sgp"),
    Plain("ent_shangqi"), Plain("saas_chanel"), Plain(ManualEntry)
  ]

  /**
   * `getBranchDetail(prefix)`. For `release` the detail is picked from the
   * environment list, whose manual entry stands for the text typed next;
   * for every other prefix the detail is the typed description. `pick` is
   * consulted only when the list is shown.
   */
  function GetBranchDetail(prefix: string, pick: nat, typed: string): (r: string)
    requires prefix in ListedDetailPrefixes ==> pick < |DetailChoices|
    ensures prefix != "release" ==> r == typed
    ensures prefix == "release" && pick == 6 ==> r == typed
    ensures prefix == "release" && pick < 6 ==>
      r == ["master", "ent_sbux", "ent_yum", "ent_sgp", "ent_shangqi", "saas_chanel"][pick]
  {
    if prefix in ListedDetailPrefixes then
      var detailAnswer := ListAnswer("detail", DetailChoices, pick);
      if detailAnswer["detail"] == ManualEntry then typed else detailAnswer["detail"]
    else
      typed
  }

  /**
   * A detail other than the typed text only ever comes from the environment
   * list, and only for the `release` prefix; a custom prefix, even one that
   * merely resembles `release`, always takes the typed description.
   */
  lemma DetailFromListOnlyForRelease(prefix: string, pick: nat, typed: string)
    requires prefix in ListedDetailPrefixes ==> pick < |DetailChoices|
    ensures GetBranchDetail(prefix, pick, typed) != typed ==>
      prefix == "release" && pick < 6 && GetBranchDetail(prefix, pick, typed) == DetailChoices[pick].value
  {
  }

  // ------------------------------------------------------------- separator

  const SeparatorChoices: seq<Choice<string>> := [
    Choice("使用斜杠 (/)", "/"),
    Choice("使用下划线 (_)", "_")
  ]

  /** `getSeparator`: always a slash or an underscore, one character long. */
  function GetSeparator(pick: nat): (r: string)
    requires pick < |SeparatorChoices|
    ensures r == "/" || r == "_"
    ensures (r == "/") <==> (pick == 0)
  {
    ListAnswer("separator", SeparatorChoices, pick)["separator"]
  }

  // ------------------------------------------------------------- need time

  const NeedTimeChoices: seq<Choice<bool>> := [
    Choice("需要", true),
    Choice("不需要", false)
  ]

  /** `getNeedTime`: the date is wanted exactly when the first entry is picked. */
  function GetNeedTime(pick: nat): (r: bool)
    requires pick < |NeedTimeChoices|
    ensures r <==> pick == 0
  {
    NeedTimeChoices[pick].value
  }

  // ------------------------------------------------------------------ date

  /** A number as decimal text, left-padded with zeros to two characters. */
  function Pad2(n: nat): (r: string)
    ensures AllDigits(r)
    ensures |r| == Max(2, |NumberToString(n)|)
  {
    PadStart(NumberToString(n), 2, '0')
  }

  /**
   * Padding keeps the value and writes only digits; every number below 100,
   * so every month and day, comes out exactly two characters long.
   */
  lemma Pad2Properties(n: nat)
    ensures AllDigits(Pad2(n))
    ensures DecimalValue(Pad2(n)) == n
    ensures n < 100 ==> |Pad2(n)| == 2
    ensures |Pad2(n)| == Max(2, |NumberToString(n)|)
  {
    var s := NumberToString(n);
    DecimalValueOfNumberToString(n);
    NumberToStringLength(n);
    if |s| < 2 {
      DecimalValueLeadingZeros(2 - |s|, s);
    }
  }

  /** The stamp `YYYYMMDD`: the year as it is, then month and day padded to two digits. */
  function DateStamp(year: nat, month: nat, day: nat): (r: string)
    ensures AllDigits(r)
    ensures |r| == |NumberToString(year)| + Max(2, |NumberToString(month)|) + Max(2, |NumberToString(day)|)
  {
    var y, m, d := NumberToString(year), Pad2(month), Pad2(day);
    AllDigitsConcat(y, m);
    AllDigitsConcat(y + m, d);
    y + m + d
  }

  /** `s` is eight digits whose fields 0-3, 4-5 and 6-7 denote the given date. */
  predicate ReadsAsDate(s: string, year: nat, month: nat, day: nat) {
    && |s| == 8 && AllDigits(s)
    && DecimalValue(s[..4]) == year
    && DecimalValue(s[4..6]) == month
    && DecimalValue(s[6..]) == day
  }

  /**
   * For a four-digit year and a month and day in range, the stamp is eight
   * digits whose three fields read back as the year, the month and the day.
   */
  lemma DateStampFields(year: nat, month: nat, day: nat)
    requires 1000 <= year <= 9999 && 1 <= month <= 12 && 1 <= day <= 31
    ensures ReadsAsDate(DateStamp(year, month, day), year, month, day)
  {
    NumberToStringLength(year);
    DecimalValueOfNumberToString(year);
    Pad2Properties(month);
    Pad2Properties(day);
    ConcatFields(NumberToString(year), Pad2(month), Pad2(day), year, month, day);
  }

  /** Three digit strings of lengths 4, 2 and 2 read back from positions 0, 4 and 6. */
  lemma ConcatFields(y: string, m: string, d: string, year: nat, month: nat, day: nat)
    requires |y| == 4 && |m| == 2 && |d| == 2
    requires AllDigits(y) && AllDigits(m) && AllDigits(d)
    requires DecimalValue(y) == year && DecimalValue(m) == month && DecimalValue(d) == day
    ensures ReadsAsDate(y + m + d, year, month, day)
  {
    var s := y + m + d;
    assert s[..4] == y;
    assert s[4..6] == m;
    assert s[6..] == d;
  }

  /** Distinct calendar dates (four-digit years) give distinct stamps. */
  lemma DateStampInjective(y1: nat, m1: nat, d1: nat, y2: nat, m2: nat, d2: nat)
    requires 1000 <= y1 <= 9999 && 1 <= m1 <= 12 && 1 <= d1 <= 31
    requires 1000 <= y2 <= 9999 && 1 <= m2 <= 12 && 1 <= d2 <= 31
    ensures DateStamp(y1, m1, d1) == DateStamp(y2, m2, d2) ==> y1 == y2 && m1 == m2 && d1 == d2
  {
    DateStampFields(y1, m1, d1);
    DateStampFields(y2, m2, d2);
  }

  /**
   * `getCurrentTime` given the clock's reading: the full year, the month
   * index as `getMonth()` reports it (January is 0) and the day of the month.
   */
  function GetCurrentTime(year: nat, monthIndex: nat, dayOfMonth: nat): (r: string)
    ensures AllDigits(r)
    ensures 1000 <= year <= 9999 && monthIndex <= 11 && 1 <= dayOfMonth <= 31 ==>
      ReadsAsDate(r, year, monthIndex + 1, dayOfMonth)
  {
    if 1000 <= year <= 9999 && monthIndex <= 11 && 1 <= dayOfMonth <= 31 then
      DateStampFields(year, monthIndex + 1, dayOfMonth);
      DateStamp(year, monthIndex + 1, dayOfMonth)
    else
      DateStamp(year, monthIndex + 1, dayOfMonth)
  }

  // ----------------------------------------------------------- branch name

  /**
   * The name `createNewBranch` checks out: the four parts with the separator
   * three times between them, then `_` and the stamp exactly when the date
   * is wanted. The date is always attached with an underscore, whatever the
   * separator.
   */
  function BranchName(prefix: string, username: string, commit: string, detail: string,
                      time: string, sep: string, needTime: bool): (r: string)
    ensures !needTime ==> r == prefix + sep + username + sep + commit + sep + detail
    ensures needTime ==> r == prefix + sep + username + sep + commit + sep + detail + "_" + time
  {
    JoinFour(prefix, username, commit, detail, sep);
    var branchName := Join([prefix, username, commit, detail], sep);
    if needTime then branchName + "_" + time else branchName
  }

  /** Without the date, the stamp passed in has no effect on the name. */
  lemma BranchNameIgnoresTime(prefix: string, username: string, commit: string, detail: string,
                              time: string, other: string, sep: string)
    ensures BranchName(prefix, username, commit, detail, time, sep, false)
         == BranchName(prefix, username, commit, detail, other, sep, false)
  {
  }

  /** With the date, the name is the dateless name followed by `_` and the stamp. */
  lemma BranchNameWithTime(prefix: string, username: string, commit: string, detail: string,
                           time: string, sep: string)
    ensures BranchName(prefix, username, commit, detail, time, sep, true)
         == BranchName(prefix, username, commit, detail, time, sep, false) + "_" + time
  {
  }

  /** The length of the name, counted part by part. */
  lemma BranchNameLength(prefix: string, username: string, commit: string, detail: string,
                         time: string, sep: string, needTime: bool)
    ensures |BranchName(prefix, username, commit, detail, time, sep, needTime)|
         == |prefix| + |username| + |commit| + |detail| + 3 * |sep|
            + (if needTime then 1 + |time| else 0)
  {
  }

  /**
   * When no part contains the separator character, splitting the name on it
   * gives back the parts; with the date, the stamp stays attached to the
   * detail (when the stamp is free of the separator too).
   */
  lemma BranchNameSplits(prefix: string, username: string, commit: string, detail: string,
                         time: string, c: char, needTime: bool)
    requires c !in prefix && c !in username && c !in commit && c !in detail
    requires needTime ==> c !in time && c != '_'
    ensures !needTime ==>
      Split(BranchName(prefix, username, commit, detail, time, [c], needTime), c)
        == [prefix, username, commit, detail]
    ensures needTime ==>
      Split(BranchName(prefix, username, commit, detail, time, [c], needTime), c)
        == [prefix, username, commit, detail + "_" + time]
  {
    var last := if needTime then detail + "_" + time else detail;
    var parts := [prefix, username, commit, last];
    JoinFour(prefix, username, commit, last, [c]);
    assert BranchName(prefix, username, commit, detail, time, [c], needTime) == Join(parts, [c]);
    SplitJoin(parts, c);
  }

  /**
   * Free text is not sanitised, so the name does not determine its parts: a
   * separator typed inside a part and one that the join inserts read alike,
   * and with `_` as the separator a detail ending in `_` and a stamp reads
   * like the dated name.
   */
  lemma BranchNameAmbiguous(prefix: string, username: string, commit: string, detail: string,
                            time: string)
    ensures BranchName("feature/x", "my", commit, detail, time, "/", false)
         == BranchName("feature", "x/my", commit, detail, time, "/", false)
    ensures BranchName(prefix, username, commit, detail, time, "_", true)
         == BranchName(prefix, username, commit, detail + "_" + time, "", "_", false)
  {
  }

  /** Two worked examples. */
  lemma BranchNameExamples()
    ensures BranchName("release", "my", "abcd1234", "master", "20240101", "/", false)
         == "release/my/abcd1234/master"
    ensures BranchName("release", "my", "abcd1234", "master", "20240101", "/", true)
         == "release/my/abcd1234/master_20240101"
  {
  }

  // ------------------------------------------------------------------ main

  /** Whether a set of answers is one the prompts can produce. */
  predicate ValidPicks(prefixPick: nat, prefixTyped: string, userPick: nat,
                       detailPick: nat, sepPick: nat, timePick: nat)
  {
    && prefixPick < |PrefixChoices|
    && userPick < |UserNameChoices|
    && (GetPrefix(prefixPick, prefixTyped) in ListedDetailPrefixes ==> detailPick < |DetailChoices|)
    && sepPick < |SeparatorChoices|
    && timePick < |NeedTimeChoices|
  }

  /**
   * The name `main` hands to `createNewBranch`, from the answers in the
   * order they are asked, the git log output and the clock's reading.
   */
  function PlannedBranch(prefixPick: nat, prefixTyped: string, userPick: nat, userTyped: string,
                         gitLog: string, detailPick: nat, detailTyped: string,
                         sepPick: nat, timePick: nat,
                         year: nat, monthIndex: nat, dayOfMonth: nat): (r: string)
    requires ValidPicks(prefixPick, prefixTyped, userPick, detailPick, sepPick, timePick)
    ensures var prefix, sep := GetPrefix(prefixPick, prefixTyped), GetSeparator(sepPick);
      var parts := prefix + sep + GetUserName(userPick, userTyped) + sep + ShortCommit(gitLog) + sep
                   + GetBranchDetail(prefix, detailPick, detailTyped);
      && (GetNeedTime(timePick) ==> r == parts + "_" + GetCurrentTime(year, monthIndex, dayOfMonth))
      && (!GetNeedTime(timePick) ==> r == parts)
  {
    var prefix := GetPrefix(prefixPick, prefixTyped);
    var username := GetUserName(userPick, userTyped);
    var commit := ShortCommit(gitLog);
    var detail := GetBranchDetail(prefix, detailPick, detailTyped);
    var separator := GetSeparator(sepPick);
    var needTime := GetNeedTime(timePick);
    var time := GetCurrentTime(year, monthIndex, dayOfMonth);
    BranchName(prefix, username, commit, detail, time, separator, needTime)
  }

  /**
   * Picking `release`, `my`, `master`, the slash and the date on
   * 1 January 2024, with a last commit `abcd1234ef`, plans
   * `release/my/abcd1234/master_20240101`; without the date the stamp is absent.
   */
  lemma PlannedBranchExample(typed: string)
    ensures PlannedBranch(2, typed, 0, typed, "abcd1234ef", 0, typed, 0, 0, 2024, 0, 1)
         == "release/my/abcd1234/master_20240101"
    ensures PlannedBranch(2, typed, 0, typed, "abcd1234ef", 0, typed, 0, 1, 2024, 0, 1)
         == "release/my/abcd1234/master"
  {
    assert GetPrefix(2, typed) == "release";
    assert GetUserName(0, typed) == "my";
    assert ShortCommit("abcd1234ef") == "abcd1234";
    assert GetBranchDetail("release", 0, typed) == "master";
    assert GetSeparator(0) == "/";
    FirstOfJanuary2024();
    BranchNameExamples();
  }

  /** The clock reading for 1 January 2024 gives the stamp `20240101`. */
  lemma FirstOfJanuary2024()
    ensures GetCurrentTime(2024, 0, 1) == "20240101"
  {
    assert NumberToString(2024) == "2024" by {
      assert NumberToString(2) == "2";
      assert NumberToString(20) == "20";
      assert NumberToString(202) == "202";
    }
    assert Pad2(1) == "01" by {
      assert NumberToString(1) == "1";
    }
    assert DateStamp(2024, 1, 1) == "20240101";
  }
}
