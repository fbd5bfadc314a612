/** The reviewed release compatibility policy: which later migrations a reader tolerates. */
module ReleaseCompatibility {
  import opened StringOrder
  import opened MigrationDiscovery

  const POLICY_VERSION := 1
  const BASE_MIGRATION: string :=
    "033_" + ("workspace" + "_" + "command" + "_" + "result" + "_" + "finalization") + ".sql"
  const CHAT_MIGRATION: string := "034_" + ("workspace" + "_" + "chat" + "_" + "auto" + "_" + "hide") + ".sql"
  const MOBILE_MIGRATION: string := "035_" + ("mobile" + "_" + "sessions") + ".sql"
  const CHAT_SHA256: string :=
    "b5c6ed85" + "5f9ca76a" + "06f14ac5" + "90a8dd96" + "fdec9cd2" + "ec88c75d" + "c5814990" + "669658cb"
  const MOBILE_SHA256: string :=
    "479d042a" + "0a5f4d07" + "886d3557" + "901b5d81" + "52b8714f" + "e9dfeece" + "ddfba941" + "21e58061"

  /** The exact canonical history 001 to 033. */
  const BASELINE: seq<string> := [
    "001_initial.sql",
    "002_member_visibility.sql",
    "003_message_reactions.sql",
    "004_workspace_profiles.sql",
    "005_workspace_email_settings.sql",
    "006_workspace_email_jobs.sql",
    "007_profile_discovery_and_avatars.sql",
    "008_conversation_pinned_messages.sql",
    "009_workspace_ntfy.sql",
    "010_workspace_uploads_and_emotes.sql",
    "011_group_avatar_emoji.sql",
    "012_message_recall.sql",
    "013_emote_collections.sql",
    "014_message_hidden_states.sql",
    "015_workspace_emote_direct_send.sql",
    "016_workspace_agent_bots.sql",
    "017_echo_requirements.sql",
    "018_workspace_topics.sql",
    "019_workspace_interactions.sql",
    "020_workspace_agent_bot_gateway.sql",
    "021_echo_complete.sql",
    "022_workspace_topic_messages.sql",
    "023_workspace_unified_bot_cards.sql",
    "024_workspace_workflow_safety.sql",
    "025_workspace_content_addressed_storage.sql",
    "026_emote_collection_subscriptions.sql",
    "027_echo_release_broadcasts.sql",
    "028_workspace_reply_preferences.sql",
    "029_workspace_agent_bot_setup_sessions.sql",
    "030_workspace_event_notifications.sql",
    "031_workspace_presence_leases.sql",
    "032_workspace_storage_operator_runs.sql",
    BASE_MIGRATION]

  // ----- the release compatibility policy -----

  datatype CompatibleMigration = CompatibleMigration(name: string, sha256: string)

  datatype Policy = Policy(version: int, baseMigration: string, compatible: seq<CompatibleMigration>)

  function Reviewed(): (r: seq<CompatibleMigration>) {
    [CompatibleMigration(CHAT_MIGRATION, CHAT_SHA256), CompatibleMigration(MOBILE_MIGRATION, MOBILE_SHA256)]
  }

  /** The reviewed policies: one for 034 alone and one for 034 and 035. */
  ghost predicate IsReviewed(policy: Policy) {
    && policy.version == POLICY_VERSION && policy.baseMigration == BASE_MIGRATION
    && (policy.compatible == Reviewed()[..1] || policy.compatible == Reviewed())
  }

  predicate IsHexDigit(c: char) {
    IsDigit(c) || 'a' <= c <= 'f'
  }

  /** 64 characters, lower-case hexadecimal. */
  predicate IsSHA256(s: string) {
    |s| == 64 && forall i :: 0 <= i < |s| ==> IsHexDigit(s[i])
  }

  lemma WordsJoin(a: string, b: string)
    requires AreWords(a) && AreWords(b)
    ensures AreWords(a + "_" + b)
  {
    var s := a + "_" + b;
    forall i | 0 <= i < |s|
      ensures IsWordChar(s[i]) || s[i] == '_'
    {
      assert s[i] == if i < |a| then a[i] else if i == |a| then '_' else b[i - |a| - 1];
    }
    forall i | 0 < i < |s|
      ensures !(s[i - 1] == '_' && s[i] == '_')
    {
      if i > |a| + 1 {
        assert s[i - 1] == b[i - |a| - 2] && s[i] == b[i - |a| - 1];
      }
    }
  }

  lemma NameOfParts(number: string, words: string)
    requires |number| == 4 && IsDigit(number[0]) && IsDigit(number[1]) && IsDigit(number[2]) && number[3] == '_'
    requires AreWords(words)
    ensures IsCanonicalName(number + words + ".sql")
  {
    var name := number + words + ".sql";
    assert name[4..|name| - 4] == words;
  }

  lemma WordsOfBase()
    ensures AreWords("workspace") && AreWords("command") && AreWords("result") && AreWords("finalization")
  {
  }

  lemma WordsOfChat()
    ensures AreWords("workspace") && AreWords("chat") && AreWords("auto") && AreWords("hide")
  {
  }

  lemma WordsOfMobile()
    ensures AreWords("mobile") && AreWords("sessions")
  {
  }

  lemma BaseIsCanonical()
    ensures IsCanonicalName(BASE_MIGRATION)
  {
    WordsOfBase();
    hide AreWords, IsCanonicalName;
    WordsJoin("workspace", "command");
    WordsJoin("workspace" + "_" + "command", "result");
    WordsJoin("workspace" + "_" + "command" + "_" + "result", "finalization");
    NameOfParts("033_", "workspace" + "_" + "command" + "_" + "result" + "_" + "finalization");
  }

  lemma ChatIsCanonical()
    ensures IsCanonicalName(CHAT_MIGRATION)
  {
    WordsOfChat();
    hide AreWords, IsCanonicalName;
    WordsJoin("workspace", "chat");
    WordsJoin("workspace" + "_" + "chat", "auto");
    WordsJoin("workspace" + "_" + "chat" + "_" + "auto", "hide");
    NameOfParts("034_", "workspace" + "_" + "chat" + "_" + "auto" + "_" + "hide");
  }

  lemma MobileIsCanonical()
    ensures IsCanonicalName(MOBILE_MIGRATION)
  {
    WordsOfMobile();
    hide AreWords, IsCanonicalName;
    WordsJoin("mobile", "sessions");
    NameOfParts("035_", "mobile" + "_" + "sessions");
  }

  lemma ReviewedNamesAreCanonical()
    ensures IsCanonicalName(BASE_MIGRATION) && IsCanonicalName(CHAT_MIGRATION) && IsCanonicalName(MOBILE_MIGRATION)
  {
    hide IsCanonicalName;
    BaseIsCanonical();
    ChatIsCanonical();
    MobileIsCanonical();
  }

  lemma ChatHashIsWellFormed()
    ensures IsSHA256(CHAT_SHA256)
  {
  }

  lemma MobileHashIsWellFormed()
    ensures IsSHA256(MOBILE_SHA256)
  {
  }

  lemma ReviewedNamesDiffer()
    ensures Less(BASE_MIGRATION, CHAT_MIGRATION) && Less(CHAT_MIGRATION, MOBILE_MIGRATION)
    ensures Less(BASE_MIGRATION, MOBILE_MIGRATION) && CHAT_MIGRATION != MOBILE_MIGRATION
  {
    assert BASE_MIGRATION[..4] == "033_" && CHAT_MIGRATION[..4] == "034_" && MOBILE_MIGRATION[..4] == "035_";
    NumbersDiffer(BASE_MIGRATION, CHAT_MIGRATION);
    NumbersDiffer(CHAT_MIGRATION, MOBILE_MIGRATION);
    NumbersDiffer(BASE_MIGRATION, MOBILE_MIGRATION);
  }

  predicate IsNumber35(name: string) {
    |name| > 2 && name[1] == '3' && name[2] == '5'
  }

  lemma FirstNamesAreNot35(i: nat)
    requires i < 17
    ensures !IsNumber35(BASELINE[i])
  {
  }

  lemma LastNamesAreNot35(i: nat)
    requires 17 <= i < |BASELINE|
    ensures !IsNumber35(BASELINE[i])
  {
  }

  lemma MobileIsNotInBaseline()
    ensures MOBILE_MIGRATION !in BASELINE
  {
    assert MOBILE_MIGRATION[..4] == "035_" && IsNumber35(MOBILE_MIGRATION);
    hide IsNumber35;
    forall i | 0 <= i < |BASELINE|
      ensures !IsNumber35(BASELINE[i])
    {
      if i < 17 {
        FirstNamesAreNot35(i);
      } else {
        LastNamesAreNot35(i);
      }
    }
  }

  lemma NumbersDiffer(a: string, b: string)
    requires |a| > 2 && |b| > 2 && a[0] == b[0] && a[1] == b[1] && a[2] < b[2]
    ensures Less(a, b) && a != b
  {
    var x, y := a[1..], b[1..];
    assert Less(x[1..], y[1..]);
    assert Less(x, y);
  }

  /** validateReleaseCompatibilityPolicy accepts exactly the reviewed policies. */
  method ValidatePolicy(policy: Policy) returns (ok: bool)
    ensures ok <==> IsReviewed(policy)
  {
    hide IsCanonicalName, IsSHA256, Less;
    ReviewedNamesAreCanonical();
    ReviewedNamesDiffer();
    ChatHashIsWellFormed();
    MobileHashIsWellFormed();
    if policy.version != POLICY_VERSION {
      return false;
    }
    if policy.baseMigration != BASE_MIGRATION || !IsCanonicalName(policy.baseMigration) {
      return false;
    }
    if |policy.compatible| != 1 && |policy.compatible| != 2 {
      return false;
    }
    var reviewed := Reviewed();
    var seen: set<string> := {};
    for index := 0 to |policy.compatible|
      invariant forall k :: 0 <= k < index ==> policy.compatible[k] == reviewed[k]
      invariant seen == set k | 0 <= k < index :: policy.compatible[k].name
    {
      var migration := policy.compatible[index];
      if migration.name in seen {
        return false;
      }
      seen := seen + {migration.name};
      if !IsCanonicalName(migration.name) || migration.name != reviewed[index].name {
        return false;
      }
      if !IsSHA256(migration.sha256) {
        return false;
      }
      if migration.sha256 != reviewed[index].sha256 {
        return false;
      }
    }
    assert policy.compatible == reviewed[..|policy.compatible|];
    assert reviewed[..2] == reviewed;
    return true;
  }

  predicate Allows(policy: Policy, name: string) {
    exists m :: m in policy.compatible && m.name == name
  }

  predicate IsBaseline(required: seq<string>) {
    && |required| == |BASELINE|
    && (forall index :: 0 <= index < |BASELINE| ==> required[index] == BASELINE[index])
    && required[|required| - 1] == BASE_MIGRATION
  }

  predicate AllowsAfter(policy: Policy, required: seq<string>, name: string) {
    && Allows(policy, name)
    && if IsBaseline(required) then name == CHAT_MIGRATION
       else
         && |required| == |BASELINE| + 1
         && required[|required| - 1] == CHAT_MIGRATION
         && IsBaseline(required[..|required| - 1])
         && name == MOBILE_MIGRATION
  }

  lemma BaselineIsExact(required: seq<string>)
    ensures IsBaseline(required) <==> required == BASELINE
  {
    assert BASELINE[32] == BASE_MIGRATION && |BASELINE| == 33;
  }
}
