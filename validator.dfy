/**
 * The input validators (internal/infrastructure/utils/validator.go). Each
 * returns Pass or the error text the source returns. Go's `len` on a string
 * counts UTF-8 bytes, which is what `Utf8Len` computes.
 */
module Validator {
  import opened Common
  import opened Text
  import opened Constants

  predicate AsciiLetter(c: char) {
    ('a' <= c <= 'z') || ('A' <= c <= 'Z')
  }

  predicate AsciiDigit(c: char) {
    '0' <= c <= '9'
  }

  // ---------------------------------------------------------------------------
  // Username
  // ---------------------------------------------------------------------------

  /** The character class [a-zA-Z0-9_]. */
  predicate UsernameChar(c: char) {
    AsciiLetter(c) || AsciiDigit(c) || c == '_'
  }

  /** ValidateUsername: 3 to 20 bytes, then the pattern ^[a-zA-Z0-9_]+$. */
  function ValidateUsername(username: string): (r: Outcome<string>)
    ensures r.Pass? <==>
      3 <= Utf8Len(username) <= 20 && forall i :: 0 <= i < |username| ==> UsernameChar(username[i])
    ensures !(3 <= Utf8Len(username) <= 20) ==> r == Fail("用户名长度必须在3-20个字符之间")
    ensures 3 <= Utf8Len(username) <= 20 && r.Fail? ==> r.error == "用户名只能包含字母、数字和下划线"
  {
    if Utf8Len(username) < 3 || Utf8Len(username) > 20 then Fail("用户名长度必须在3-20个字符之间")
    else if forall i :: 0 <= i < |username| ==> UsernameChar(username[i]) then Pass
    else Fail("用户名只能包含字母、数字和下划线")
  }

  /** An accepted username is pure ASCII, so its byte bound is a bound of 3 to 20 characters. */
  lemma AcceptedUsernameLength(username: string)
    requires ValidateUsername(username).Pass?
    ensures 3 <= |username| <= 20
  {
  }

  // ---------------------------------------------------------------------------
  // Password
  // ---------------------------------------------------------------------------

  predicate HasLetter(s: string) {
    exists i :: 0 <= i < |s| && AsciiLetter(s[i])
  }

  predicate HasDigit(s: string) {
    exists i :: 0 <= i < |s| && AsciiDigit(s[i])
  }

  /**
   * ValidatePassword: 6 to 20 bytes, and at least one ASCII letter and one
   * ASCII digit, found by one scan over the characters.
   */
  method ValidatePassword(password: string) returns (r: Outcome<string>)
    ensures !(6 <= Utf8Len(password) <= 20) ==> r == Fail("密码长度必须在6-20个字符之间")
    ensures 6 <= Utf8Len(password) <= 20 ==>
      (r == Pass <==> HasLetter(password) && HasDigit(password))
    ensures 6 <= Utf8Len(password) <= 20 && r.Fail? ==> r.error == "密码必须包含字母和数字"
  {
    if Utf8Len(password) < 6 || Utf8Len(password) > 20 {
      return Fail("密码长度必须在6-20个字符之间");
    }
    var hasLetter := false;
    var hasNumber := false;
    for k := 0 to |password|
      invariant hasLetter <==> exists i :: 0 <= i < k && AsciiLetter(password[i])
      invariant hasNumber <==> exists i :: 0 <= i < k && AsciiDigit(password[i])
    {
      var c := password[k];
      if ('a' <= c <= 'z') || ('A' <= c <= 'Z') {
        hasLetter := true;
      }
      if '0' <= c <= '9' {
        hasNumber := true;
      }
    }
    if !hasLetter || !hasNumber {
      return Fail("密码必须包含字母和数字");
    }
    return Pass;
  }

  // ---------------------------------------------------------------------------
  // Email
  // ---------------------------------------------------------------------------

  /** [a-zA-Z0-9._%+-] */
  predicate LocalChar(c: char) {
    AsciiLetter(c) || AsciiDigit(c) || c == '.' || c == '_' || c == '%' || c == '+' || c == '-'
  }

  /** [a-zA-Z0-9.-] */
  predicate DomainChar(c: char) {
    AsciiLetter(c) || AsciiDigit(c) || c == '.' || c == '-'
  }

  /**
   * `s` matches ^[a-zA-Z0-9._%+-]+@[a-zA-Z0-9.-]+\.[a-zA-Z]{2,}$ with the
   * '@' at index `a` and the '.' before the top-level domain at index `d`.
   */
  predicate EmailSplit(s: string, a: int, d: int) {
    && 0 < a && a + 1 < d && d + 3 <= |s|
    && s[a] == '@' && s[d] == '.'
    && (forall k :: 0 <= k < a ==> LocalChar(s[k]))
    && (forall k :: a < k < d ==> DomainChar(s[k]))
    && (forall k :: d < k < |s| ==> AsciiLetter(s[k]))
  }

  /** The e-mail pattern: some split of `s` matches it. */
  predicate EmailPattern(s: string) {
    exists a, d :: 0 <= a < |s| && 0 <= d < |s| && EmailSplit(s, a, d)
  }

  /** ValidateEmail: the empty address is accepted; anything else must match the pattern. */
  function ValidateEmail(email: string): (r: Outcome<string>)
    ensures r.Pass? <==> email == "" || EmailPattern(email)
    ensures r.Fail? ==> r.error == "邮箱格式不正确"
  {
    if email == "" then Pass
    else if EmailPattern(email) then Pass
    else Fail("邮箱格式不正确")
  }

  /** The index of the first `c` in `s`. */
  function IndexOf(s: string, c: char): (r: Option<nat>)
    ensures r.Some? ==> r.value < |s| && s[r.value] == c && forall k :: 0 <= k < r.value ==> s[k] != c
    ensures r.None? ==> forall k :: 0 <= k < |s| ==> s[k] != c
  {
    if s == [] then None
    else if s[0] == c then Some(0)
    else
      match IndexOf(s[1..], c)
      case None => None
      case Some(k) => Some(k + 1)
  }

  /** The index of the last `c` in `s`. */
  function LastIndexOf(s: string, c: char): (r: Option<nat>)
    ensures r.Some? ==> r.value < |s| && s[r.value] == c && forall k :: r.value < k < |s| ==> s[k] != c
    ensures r.None? ==> forall k :: 0 <= k < |s| ==> s[k] != c
  {
    if s == [] then None
    else if s[|s| - 1] == c then Some(|s| - 1)
    else LastIndexOf(s[..|s| - 1], c)
  }

  /**
   * A second reading of the pattern: split at the first '@' and at the last
   * '.', then check the three parts.
   */
  function EmailByScan(s: string): bool {
    match IndexOf(s, '@')
    case None => false
    case Some(a) =>
      match LastIndexOf(s, '.')
      case None => false
      case Some(d) => EmailSplit(s, a, d)
  }

  /**
   * The pattern and the scan agree on every string: no part of the pattern
   * admits an '@' besides the separator, and the top-level domain admits
   * no '.', so any matching split is the first '@' and the last '.'.
   */
  lemma EmailPatternByScan(s: string)
    ensures EmailPattern(s) <==> EmailByScan(s)
  {
    if EmailPattern(s) {
      var a, d :| 0 <= a < |s| && 0 <= d < |s| && EmailSplit(s, a, d);
      assert IndexOf(s, '@') == Some(a) by {
        assert forall k :: 0 <= k < a ==> LocalChar(s[k]);
      }
      assert LastIndexOf(s, '.') == Some(d) by {
        assert forall k :: d < k < |s| ==> AsciiLetter(s[k]);
      }
    }
    if EmailByScan(s) {
      var a, d := IndexOf(s, '@').value, LastIndexOf(s, '.').value;
      assert EmailSplit(s, a, d);
    }
  }

  /** An accepted non-empty address has exactly one '@'. */
  lemma EmailHasOneAt(s: string)
    requires s != "" && ValidateEmail(s).Pass?
    ensures exists a :: 0 <= a < |s| && s[a] == '@' && forall k :: 0 <= k < |s| && k != a ==> s[k] != '@'
  {
    var a, d :| 0 <= a < |s| && 0 <= d < |s| && EmailSplit(s, a, d);
    assert forall k :: 0 <= k < |s| && k != a ==> s[k] != '@' by {
      forall k | 0 <= k < |s| && k != a ensures s[k] != '@' {
        if k < a {
          assert LocalChar(s[k]);
        } else if k < d {
          assert DomainChar(s[k]);
        } else if k > d {
          assert AsciiLetter(s[k]);
        }
      }
    }
  }

  // ---------------------------------------------------------------------------
  // File extension
  // ---------------------------------------------------------------------------

  /**
   * ValidateFileExt as written: the lower-cased extension must occur
   * somewhere in ".mp4,.srt,.txt" as a substring.
   */
  function ValidateFileExtAsWritten(filename: string): (r: Outcome<string>)
    ensures r.Pass? <==> Contains(AllowedFileExts, ToLowerAscii(Ext(filename)))
    ensures r.Fail? ==> r.error == "不支持的文件类型"
  {
    if Contains(AllowedFileExts, ToLowerAscii(Ext(filename))) then Pass
    else Fail("不支持的文件类型")
  }

  /** As written, every name without a '.' passes: its extension "" occurs in any string. */
  lemma NoExtensionAccepted(filename: string)
    requires forall i :: 0 <= i < |filename| ==> filename[i] != '.'
    ensures ValidateFileExtAsWritten(filename).Pass?
  {
    ExtWithoutDot(filename);
    assert OccursAt(AllowedFileExts, ToLowerAscii(""), 0);
  }

  /** The extension of any name ending in ".mp" is ".mp", already lower case. */
  lemma ExtensionOfMp(stem: string)
    ensures Ext(stem + ".mp") == ".mp" && ToLowerAscii(".mp") == ".mp"
  {
    var f := stem + ".mp";
    ExtAtLastDot(f, |stem|);
    assert f[|stem|..] == ".mp";
  }

  /** As written, a name ending in ".mp", a piece of ".mp4", passes too. */
  lemma PartialExtensionAccepted(stem: string)
    ensures ValidateFileExtAsWritten(stem + ".mp").Pass?
  {
    ExtensionOfMp(stem);
    assert OccursAt(AllowedFileExts, ".mp", 0);
  }

  /** The extensions the list ".mp4,.srt,.txt" names, split at the commas. */
  const AllowedExtList: seq<string> := [".mp4", ".srt", ".txt"]

  /** ValidateFileExt as intended: the lower-cased extension is one of the listed ones. */
  function ValidateFileExt(filename: string): (r: Outcome<string>)
    ensures r.Pass? <==> ToLowerAscii(Ext(filename)) in AllowedExtList
    ensures r.Pass? ==> |Ext(filename)| == 4 && Ext(filename) != ""
    ensures r.Fail? ==> r.error == "不支持的文件类型"
  {
    if ToLowerAscii(Ext(filename)) in AllowedExtList then Pass
    else Fail("不支持的文件类型")
  }

  /** Each listed extension sits in ".mp4,.srt,.txt" between the commas. */
  lemma ListedExtensionsOccur()
    ensures forall k :: 0 <= k < |AllowedExtList| ==> OccursAt(AllowedFileExts, AllowedExtList[k], 5 * k)
  {
    assert OccursAt(AllowedFileExts, ".mp4", 0);
    assert OccursAt(AllowedFileExts, ".srt", 5);
    assert OccursAt(AllowedFileExts, ".txt", 10);
  }

  /** Everything the intended check accepts, the written one accepts too. */
  lemma FileExtIntendedIsStricter(filename: string)
    ensures ValidateFileExt(filename).Pass? ==> ValidateFileExtAsWritten(filename).Pass?
  {
    var e := ToLowerAscii(Ext(filename));
    if e in AllowedExtList {
      ListedExtensionsOccur();
      var k :| 0 <= k < |AllowedExtList| && AllowedExtList[k] == e;
      assert OccursAt(AllowedFileExts, e, 5 * k);
    }
  }

  /** The names the written check lets through are refused by the intended one. */
  lemma FileExtIntendedRefuses(filename: string, stem: string)
    ensures (forall i :: 0 <= i < |filename| ==> filename[i] != '.') ==> ValidateFileExt(filename).Fail?
    ensures ValidateFileExt(stem + ".mp").Fail?
  {
    if forall i :: 0 <= i < |filename| ==> filename[i] != '.' {
      ExtWithoutDot(filename);
      assert ToLowerAscii("") == "";
    }
    ExtensionOfMp(stem);
  }

  // ---------------------------------------------------------------------------
  // Sizes and codes
  // ---------------------------------------------------------------------------

  /** ValidateFileSize: at most 100 MiB. */
  function ValidateFileSize(size: int): (r: Outcome<string>)
    ensures r.Pass? <==> size <= 104857600
    ensures r.Fail? ==> r.error == "文件大小超过限制"
  {
    if size > MaxFileSize then Fail("文件大小超过限制") else Pass
  }

  /** ValidatePageSize: 1 to 100. */
  function ValidatePageSize(pageSize: int): (r: Outcome<string>)
    ensures r.Pass? <==> 1 <= pageSize <= 100
    ensures r.Fail? ==> r.error == "分页大小超出范围"
  {
    if pageSize < 1 || pageSize > MaxPageSize then Fail("分页大小超出范围") else Pass
  }

  function ValidateTaskType(taskType: int): (r: Outcome<string>)
    ensures r.Pass? <==> taskType in {1, 2}
    ensures r.Fail? ==> r.error == "无效的任务类型"
  {
    if taskType != TaskTypeContentGeneration && taskType != TaskTypeTranslation then Fail("无效的任务类型")
    else Pass
  }

  function ValidateTaskStatus(status: int): (r: Outcome<string>)
    ensures r.Pass? <==> status in {0, 1, 2, 3, 4, 5}
    ensures r.Fail? ==> r.error == "无效的任务状态"
  {
    if status < TaskStatusWaiting || status > TaskStatusCanceled then Fail("无效的任务状态") else Pass
  }

  function ValidatePromptType(promptType: int): (r: Outcome<string>)
    ensures r.Pass? <==> promptType in {1, 2}
    ensures r.Fail? ==> r.error == "无效的提示词类型"
  {
    if promptType != PromptTypeContentGeneration && promptType != PromptTypeTranslation then Fail("无效的提示词类型")
    else Pass
  }

  function ValidateWorkStatus(status: int): (r: Outcome<string>)
    ensures r.Pass? <==> status in {0, 1, 2, 3, 4}
    ensures r.Fail? ==> r.error == "无效的作品状态"
  {
    if status < WorkStatusWaiting || status > WorkStatusCanceled then Fail("无效的作品状态") else Pass
  }

  function ValidateTranslationBatchStatus(status: int): (r: Outcome<string>)
    ensures r.Pass? <==> status in {0, 1, 2, 3, 4}
    ensures r.Fail? ==> r.error == "无效的翻译批次状态"
  {
    if status < TranslationBatchStatusWaiting || status > TranslationBatchStatusCanceled then Fail("无效的翻译批次状态")
    else Pass
  }

  function ValidateTranslationResultStatus(status: int): (r: Outcome<string>)
    ensures r.Pass? <==> status in {0, 1, 2, 3}
    ensures r.Fail? ==> r.error == "无效的翻译结果状态"
  {
    if status < TranslationResultStatusWaiting || status > TranslationResultStatusCanceled then Fail("无效的翻译结果状态")
    else Pass
  }

  function ValidateUserStatus(status: int): (r: Outcome<string>)
    ensures r.Pass? <==> status in {0, 1}
    ensures r.Fail? ==> r.error == "无效的用户状态"
  {
    if status != UserStatusActive && status != UserStatusInactive then Fail("无效的用户状态") else Pass
  }

  function ValidateRoleType(roleType: int): (r: Outcome<string>)
    ensures r.Pass? <==> roleType in {1, 2}
    ensures r.Fail? ==> r.error == "无效的角色类型"
  {
    if roleType != RoleTypeAdmin && roleType != RoleTypeUser then Fail("无效的角色类型") else Pass
  }
}
