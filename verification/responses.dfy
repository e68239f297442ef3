/** `generateResponse` of `src/components/chatbot/ChatbotWidget.tsx`: an
    ordered, first-match-wins cascade of case-insensitive keyword tests,
    gated by the caller's role. */
module Responses {
  import opened Wrappers
  import Text
  import opened Auth

  /** The canned replies, one constructor each. */
  datatype Reply =
    | Refusal | DonorHistory | DonorCertificate | DonorImpact
    | StaffFinancial | StaffCompliance | StaffAidRequests
    | About | HowToDonate | Programs | ContactInfo | Impact | Volunteer | TaxBenefits
    | Fallback

  predicate IsDonorReply(r: Reply) {
    r.Refusal? || r.DonorHistory? || r.DonorCertificate? || r.DonorImpact?
  }

  predicate IsStaffReply(r: Reply) {
    r.StaffFinancial? || r.StaffCompliance? || r.StaffAidRequests?
  }

  /** The text shown for each reply: the heading or opening words of the
      source's reply, abridged and without the markdown. */
  function ReplyText(r: Reply): (t: string)
    ensures |t| > 0
  {
    match r
    case Refusal => "I apologize: own donations only."
    case DonorHistory => "Based on your account:"
    case DonorCertificate => "Your donation certificates:"
    case DonorImpact => "Your Impact Summary:"
    case StaffFinancial => "Financial Overview (FY 2024-25):"
    case StaffCompliance => "Compliance Status:"
    case StaffAidRequests => "Aid Requests Summary:"
    case About => "About AidConnect Global"
    case HowToDonate => "How to Donate:"
    case Programs => "Our Programs:"
    case ContactInfo => "Contact Us:"
    case Impact => "Our Impact:"
    case Volunteer => "Volunteer with Us!"
    case TaxBenefits => "Tax Benefits:"
    case Fallback => "I'm here to help you!"
  }

  /** Different replies are shown as different texts. */
  lemma ReplyTextInjective(a: Reply, b: Reply)
    ensures ReplyText(a) == ReplyText(b) ==> a == b
  {
    match a
    case Refusal =>
    case DonorHistory =>
    case DonorCertificate =>
    case DonorImpact =>
    case StaffFinancial =>
    case StaffCompliance =>
    case StaffAidRequests =>
    case About =>
    case HowToDonate =>
    case Programs =>
    case ContactInfo =>
    case Impact =>
    case Volunteer =>
    case TaxBenefits =>
    case Fallback =>
  }

  // ---------------------------------------------------------------------------
  // Keyword groups, in the source's order
  // ---------------------------------------------------------------------------

  const DenialWords: seq<string> := ["total fund", "all donation", "staff", "compliance"]
  const HistoryWords: seq<string> := ["my donation", "donation history"]
  const CertificateWords: seq<string> := ["certificate"]
  const DonorImpactWords: seq<string> := ["impact", "help"]

  const FinancialWords: seq<string> := ["fund", "financial", "utilization"]
  const ComplianceWords: seq<string> := ["compliance", "audit"]
  const RequestWords: seq<string> := ["aid request", "request"]

  const AboutWords: seq<string> := ["mission", "about"]
  const DonateWords: seq<string> := ["donate", "contribution"]
  const ProgramWords: seq<string> := ["program", "initiative"]
  const ContactWords: seq<string> := ["contact", "reach"]
  const ImpactWords: seq<string> := ["impact", "achievement"]
  const VolunteerWords: seq<string> := ["volunteer"]
  const TaxWords: seq<string> := ["tax", "80g"]

  /** The `a.includes(w1) || a.includes(w2) || ...` test of one branch. */
  predicate Mentions(text: string, words: seq<string>): (b: bool)
    ensures b <==> exists i | 0 <= i < |words| :: Text.Occurs(text, words[i])
  {
    exists i | 0 <= i < |words| :: Text.Contains(text, words[i])
  }

  // ---------------------------------------------------------------------------
  // The cascade as written
  // ---------------------------------------------------------------------------

  /** The donor block: the denial gate, then the donor rules; None when the
      text falls through. */
  function DonorReply(m: string): (r: Option<Reply>)
    ensures r.Some? ==> IsDonorReply(r.value)
    ensures r.None? <==>
      && !Mentions(m, DenialWords) && !Mentions(m, HistoryWords)
      && !Mentions(m, CertificateWords) && !Mentions(m, DonorImpactWords)
  {
    if Mentions(m, DenialWords) then Some(Refusal)
    else if Mentions(m, HistoryWords) then Some(DonorHistory)
    else if Mentions(m, CertificateWords) then Some(DonorCertificate)
    else if Mentions(m, DonorImpactWords) then Some(DonorImpact)
    else None
  }

  /** The staff block; None when the text falls through. */
  function StaffReply(m: string): (r: Option<Reply>)
    ensures r.Some? ==> IsStaffReply(r.value)
    ensures r.None? <==>
      && !Mentions(m, FinancialWords) && !Mentions(m, ComplianceWords) && !Mentions(m, RequestWords)
  {
    if Mentions(m, FinancialWords) then Some(StaffFinancial)
    else if Mentions(m, ComplianceWords) then Some(StaffCompliance)
    else if Mentions(m, RequestWords) then Some(StaffAidRequests)
    else None
  }

  /** The general-public block, ending in the unconditional default. */
  function PublicReply(m: string): (r: Reply)
    ensures !IsDonorReply(r) && !IsStaffReply(r)
    ensures r == Fallback <==>
      && !Mentions(m, AboutWords) && !Mentions(m, DonateWords)
      && !Mentions(m, ProgramWords) && !Mentions(m, ContactWords) && !Mentions(m, ImpactWords)
      && !Mentions(m, VolunteerWords) && !Mentions(m, TaxWords)
  {
    if Mentions(m, AboutWords) then About
    else if Mentions(m, DonateWords) then HowToDonate
    else if Mentions(m, ProgramWords) then Programs
    else if Mentions(m, ContactWords) then ContactInfo
    else if Mentions(m, ImpactWords) then Impact
    else if Mentions(m, VolunteerWords) then Volunteer
    else if Mentions(m, TaxWords) then TaxBenefits
    else Fallback
  }

  /** `generateResponse(userMessage)` for a caller whose `user?.role` is
      `role`. Total: every role and text get exactly one reply, and the
      reply never needs a role the caller does not hold. */
  function Respond(role: Role, message: string): (r: Reply)
    ensures IsStaffReply(r) ==> role == Staff
    ensures IsDonorReply(r) ==> role == Donor
  {
    var m := Text.Lower(message);
    var roleReply := match role
      case Donor => DonorReply(m)
      case Staff => StaffReply(m)
      case NoRole => None;
    if roleReply.Some? then roleReply.value else PublicReply(m)
  }

  /** The reply's text; never empty. */
  function RespondText(role: Role, message: string): (t: string)
    ensures |t| > 0
  {
    ReplyText(Respond(role, message))
  }

  // ---------------------------------------------------------------------------
  // The same rules as an ordered table, evaluated first-match-wins
  // ---------------------------------------------------------------------------

  datatype Rule = Rule(words: seq<string>, reply: Reply)

  predicate Fires(rule: Rule, text: string) {
    Mentions(text, rule.words)
  }

  const PublicRules: seq<Rule> := [
    Rule(AboutWords, About), Rule(DonateWords, HowToDonate), Rule(ProgramWords, Programs),
    Rule(ContactWords, ContactInfo), Rule(ImpactWords, Impact), Rule(VolunteerWords, Volunteer),
    Rule(TaxWords, TaxBenefits)
  ]

  const DonorRules: seq<Rule> := [
    Rule(DenialWords, Refusal), Rule(HistoryWords, DonorHistory),
    Rule(CertificateWords, DonorCertificate), Rule(DonorImpactWords, DonorImpact)
  ]

  const StaffRules: seq<Rule> := [
    Rule(FinancialWords, StaffFinancial), Rule(ComplianceWords, StaffCompliance),
    Rule(RequestWords, StaffAidRequests)
  ]

  /** The rules a role consults, in priority order. */
  function Table(role: Role): seq<Rule> {
    match role
    case Donor => DonorRules + PublicRules
    case Staff => StaffRules + PublicRules
    case NoRole => PublicRules
  }

  /** Rule `i` fires and no earlier rule does. */
  ghost predicate FirstFiresAt(rules: seq<Rule>, text: string, i: int) {
    && 0 <= i < |rules|
    && Fires(rules[i], text)
    && forall j :: 0 <= j < i ==> !Fires(rules[j], text)
  }

  /** The position of the first rule that fires. */
  function FirstFiring(rules: seq<Rule>, text: string): (r: Option<nat>)
    ensures r.Some? ==> FirstFiresAt(rules, text, r.value)
    ensures r.None? <==> forall j :: 0 <= j < |rules| ==> !Fires(rules[j], text)
  {
    if rules == [] then None
    else if Fires(rules[0], text) then Some(0)
    else
      match FirstFiring(rules[1..], text)
      case None => None
      case Some(i) =>
        assert rules[1..][i] == rules[i + 1];
        Some(i + 1)
  }

  /** First-match-wins over a table, `Fallback` when nothing fires. */
  function Select(rules: seq<Rule>, text: string): Reply {
    match FirstFiring(rules, text)
    case Some(i) => rules[i].reply
    case None => Fallback
  }

  /** The positions of `rules` hold pairwise different replies, none of
      them the default. */
  ghost predicate DistinctReplies(rules: seq<Rule>) {
    && (forall i, j :: 0 <= i < j < |rules| ==> rules[i].reply != rules[j].reply)
    && (forall i :: 0 <= i < |rules| ==> rules[i].reply != Fallback)
  }

  /** In a table with distinct replies, a reply is selected exactly when its
      rule is the first to fire, and the default exactly when none fires. */
  lemma SelectIff(rules: seq<Rule>, text: string, i: nat)
    requires DistinctReplies(rules)
    requires i < |rules|
    ensures Select(rules, text) == rules[i].reply <==> FirstFiresAt(rules, text, i)
    ensures Select(rules, text) == Fallback <==> forall j :: 0 <= j < |rules| ==> !Fires(rules[j], text)
  {
  }

  /** The position of a reply in the declaration order; the default comes
      last. */
  function Rank(r: Reply): nat {
    match r
    case Refusal => 0
    case DonorHistory => 1
    case DonorCertificate => 2
    case DonorImpact => 3
    case StaffFinancial => 4
    case StaffCompliance => 5
    case StaffAidRequests => 6
    case About => 7
    case HowToDonate => 8
    case Programs => 9
    case ContactInfo => 10
    case Impact => 11
    case Volunteer => 12
    case TaxBenefits => 13
    case Fallback => 14
  }

  /** Neighbouring rules have rising ranks below the default's. */
  ghost predicate RisingRanks(rules: seq<Rule>) {
    && (forall i :: 0 <= i < |rules| ==> Rank(rules[i].reply) < 14)
    && (forall i :: 0 <= i < |rules| - 1 ==> Rank(rules[i].reply) < Rank(rules[i + 1].reply))
  }

  /** Rising ranks between neighbours rise between any two positions, so
      the replies are distinct. */
  lemma {:induction false} RisingRanksDistinct(rules: seq<Rule>)
    requires RisingRanks(rules)
    ensures DistinctReplies(rules)
  {
    forall i, j | 0 <= i < j < |rules| ensures rules[i].reply != rules[j].reply {
      RanksRiseBetween(rules, i, j);
    }
    assert forall i :: 0 <= i < |rules| ==> Rank(rules[i].reply) != Rank(Fallback);
  }

  lemma {:induction false} RanksRiseBetween(rules: seq<Rule>, i: nat, j: nat)
    requires RisingRanks(rules)
    requires i < j < |rules|
    ensures Rank(rules[i].reply) < Rank(rules[j].reply)
    decreases j - i
  {
    if i + 1 < j {
      RanksRiseBetween(rules, i + 1, j);
    }
  }

  /** Two rising tables, the first ending below where the second starts,
      make a rising table. */
  lemma RisingRanksAppend(a: seq<Rule>, b: seq<Rule>)
    requires RisingRanks(a) && RisingRanks(b) && a != [] && b != []
    requires Rank(a[|a| - 1].reply) < Rank(b[0].reply)
    ensures RisingRanks(a + b)
  {
  }

  lemma PublicRulesRise()
    ensures RisingRanks(PublicRules)
  {
  }

  lemma TablesHaveDistinctReplies(role: Role)
    ensures DistinctReplies(Table(role))
  {
    PublicRulesRise();
    match role
    case Donor =>
      RisingRanksAppend(DonorRules, PublicRules);
      RisingRanksDistinct(DonorRules + PublicRules);
    case Staff =>
      RisingRanksAppend(StaffRules, PublicRules);
      RisingRanksDistinct(StaffRules + PublicRules);
    case NoRole =>
      RisingRanksDistinct(PublicRules);
  }

  /** Consulting `[r] + rest`: `r` if it fires, else the rest. */
  lemma {:induction false} FirstFiringCons(r: Rule, rest: seq<Rule>, text: string)
    ensures FirstFiring([r] + rest, text)
      == if Fires(r, text) then Some(0)
         else match FirstFiring(rest, text) case None => None case Some(i) => Some(i + 1)
  {
  }

  /** A table's first firing rule lies in the first part when one there
      fires; otherwise it is the second part's, shifted. */
  lemma {:induction false} FirstFiringAppend(a: seq<Rule>, b: seq<Rule>, text: string)
    ensures FirstFiring(a + b, text)
      == match FirstFiring(a, text)
         case Some(i) => Some(i)
         case None => match FirstFiring(b, text) case None => None case Some(k) => Some(k + |a|)
  {
    if a == [] {
      assert a + b == b;
    } else {
      assert a + b == [a[0]] + (a[1..] + b);
      assert a == [a[0]] + a[1..];
      FirstFiringCons(a[0], a[1..] + b, text);
      FirstFiringCons(a[0], a[1..], text);
      FirstFiringAppend(a[1..], b, text);
    }
  }

  /** One step of first-match-wins: the head rule if it fires, else the
      rest of the table. */
  lemma SelectStep(rules: seq<Rule>, text: string)
    requires rules != []
    ensures Select(rules, text)
      == if Fires(rules[0], text) then rules[0].reply else Select(rules[1..], text)
  {
  }

  /** The last three public rules and the default. */
  lemma PublicTailIsTable(m: string)
    ensures Select(PublicRules[4..], m)
      == if Mentions(m, ImpactWords) then Impact
         else if Mentions(m, VolunteerWords) then Volunteer
         else if Mentions(m, TaxWords) then TaxBenefits
         else Fallback
  {
    var rs := PublicRules[4..];
    SelectStep(rs, m);
    SelectStep(rs[1..], m);
    SelectStep(rs[2..], m);
    assert rs[3..] == [];
  }

  lemma PublicCascadeIsTable(m: string)
    ensures PublicReply(m) == Select(PublicRules, m)
  {
    var rs := PublicRules;
    SelectStep(rs, m);
    SelectStep(rs[1..], m);
    SelectStep(rs[2..], m);
    SelectStep(rs[3..], m);
    assert rs[3..][1..] == rs[4..];
    PublicTailIsTable(m);
  }

  lemma DonorCascadeIsTable(m: string)
    ensures DonorReply(m).Some? <==> FirstFiring(DonorRules, m).Some?
    ensures DonorReply(m).Some? ==> DonorReply(m).value == DonorRules[FirstFiring(DonorRules, m).value].reply
  {
    var rs := DonorRules;
    FirstFiringCons(rs[0], rs[1..], m);
    FirstFiringCons(rs[1], rs[2..], m);
    FirstFiringCons(rs[2], rs[3..], m);
    FirstFiringCons(rs[3], rs[4..], m);
    assert rs == [rs[0]] + rs[1..];
    assert rs[1..] == [rs[1]] + rs[2..];
    assert rs[2..] == [rs[2]] + rs[3..];
    assert rs[3..] == [rs[3]] + rs[4..];
    assert rs[4..] == [];
  }

  lemma StaffCascadeIsTable(m: string)
    ensures StaffReply(m).Some? <==> FirstFiring(StaffRules, m).Some?
    ensures StaffReply(m).Some? ==> StaffReply(m).value == StaffRules[FirstFiring(StaffRules, m).value].reply
  {
    var rs := StaffRules;
    FirstFiringCons(rs[0], rs[1..], m);
    FirstFiringCons(rs[1], rs[2..], m);
    FirstFiringCons(rs[2], rs[3..], m);
    assert rs == [rs[0]] + rs[1..];
    assert rs[1..] == [rs[1]] + rs[2..];
    assert rs[2..] == [rs[2]] + rs[3..];
    assert rs[3..] == [];
  }

  /** The if/else cascade and the ordered table agree on every role and
      text. */
  lemma RespondIsFirstMatch(role: Role, message: string)
    ensures Respond(role, message) == Select(Table(role), Text.Lower(message))
  {
    var m := Text.Lower(message);
    PublicCascadeIsTable(m);
    match role
    case Donor => DonorTableIsCascade(m);
    case Staff => StaffTableIsCascade(m);
    case NoRole =>
  }

  /** The donor table: the donor block if it answers, else the public one. */
  lemma DonorTableIsCascade(m: string)
    ensures Select(Table(Donor), m)
      == match DonorReply(m) case Some(r) => r case None => Select(PublicRules, m)
  {
    DonorCascadeIsTable(m);
    FirstFiringAppend(DonorRules, PublicRules, m);
  }

  /** The staff table: the staff block if it answers, else the public one. */
  lemma StaffTableIsCascade(m: string)
    ensures Select(Table(Staff), m)
      == match StaffReply(m) case Some(r) => r case None => Select(PublicRules, m)
  {
    StaffCascadeIsTable(m);
    FirstFiringAppend(StaffRules, PublicRules, m);
  }

  // ---------------------------------------------------------------------------
  // Priority, shadowing and role isolation
  // ---------------------------------------------------------------------------

  /** The priority contract for every role: a table reply is given exactly
      when its rule is the first of the role's table to fire, and the
      default exactly when no rule fires. */
  lemma RespondPriority(role: Role, message: string, i: nat)
    requires i < |Table(role)|
    ensures Respond(role, message) == Table(role)[i].reply
        <==> FirstFiresAt(Table(role), Text.Lower(message), i)
    ensures Respond(role, message) == Fallback
        <==> forall j :: 0 <= j < |Table(role)| ==> !Fires(Table(role)[j], Text.Lower(message))
  {
    RespondIsFirstMatch(role, message);
    TablesHaveDistinctReplies(role);
    SelectIff(Table(role), Text.Lower(message), i);
  }

  /** Only the lower-cased text matters. */
  lemma RespondIgnoresCase(role: Role, message: string)
    ensures Respond(role, message) == Respond(role, Text.Lower(message))
  {
    Text.LowerIdempotent(message);
  }

  /** The donor denial gate: a donor is refused exactly when the text
      mentions "total fund", "all donation", "staff" or "compliance",
      whatever else it mentions. */
  lemma DonorGate(message: string)
    ensures Respond(Donor, message) == Refusal <==> Mentions(Text.Lower(message), DenialWords)
  {
  }

  /** After the gate a donor gets, in order: the donation summary, the
      certificate instructions, the personal impact summary. */
  lemma DonorOrder(message: string)
    ensures var m := Text.Lower(message);
      && (Respond(Donor, message) == DonorHistory
          <==> !Mentions(m, DenialWords) && Mentions(m, HistoryWords))
      && (Respond(Donor, message) == DonorCertificate
          <==> !Mentions(m, DenialWords) && !Mentions(m, HistoryWords) && Mentions(m, CertificateWords))
      && (Respond(Donor, message) == DonorImpact
          <==> !Mentions(m, DenialWords) && !Mentions(m, HistoryWords)
               && !Mentions(m, CertificateWords) && Mentions(m, DonorImpactWords))
  {
  }

  /** Staff get, in order: the financial overview, the compliance status,
      the aid-request summary. */
  lemma StaffOrder(message: string)
    ensures var m := Text.Lower(message);
      && (Respond(Staff, message) == StaffFinancial <==> Mentions(m, FinancialWords))
      && (Respond(Staff, message) == StaffCompliance
          <==> !Mentions(m, FinancialWords) && Mentions(m, ComplianceWords))
      && (Respond(Staff, message) == StaffAidRequests
          <==> !Mentions(m, FinancialWords) && !Mentions(m, ComplianceWords) && Mentions(m, RequestWords))
  {
  }

  /** A donor or staff text that matches none of the role's rules gets
      exactly the visitor's reply; one that matches gets a reply reserved
      for that role. */
  lemma RoleFallThrough(message: string)
    ensures var m := Text.Lower(message);
      && (!IsDonorReply(Respond(Donor, message))
          <==> !Mentions(m, DenialWords) && !Mentions(m, HistoryWords)
               && !Mentions(m, CertificateWords) && !Mentions(m, DonorImpactWords))
      && (!IsDonorReply(Respond(Donor, message)) ==> Respond(Donor, message) == Respond(NoRole, message))
      && (!IsStaffReply(Respond(Staff, message))
          <==> !Mentions(m, FinancialWords) && !Mentions(m, ComplianceWords) && !Mentions(m, RequestWords))
      && (!IsStaffReply(Respond(Staff, message)) ==> Respond(Staff, message) == Respond(NoRole, message))
  {
  }

  /** A text mentions a group when it contains one of the group's words. */
  lemma MentionsWitness(text: string, words: seq<string>, i: nat, lo: nat)
    requires i < |words| && lo + |words[i]| <= |text|
    requires text[lo..lo + |words[i]|] == words[i]
    ensures Mentions(text, words)
  {
    Text.ContainsSlice(text, lo, lo + |words[i]|);
  }

  /** A donor mentioning "compliance" is refused even when it also mentions
      "certificate". */
  lemma DonorComplianceCertificateRefused(message: string)
    requires Text.Contains(Text.Lower(message), "certificate")
    requires Text.Contains(Text.Lower(message), "compliance")
    ensures Respond(Donor, message) == Refusal
  {
    assert DenialWords[3] == "compliance";
  }

  /** A staff text mentioning both "compliance" and "fund" gets the
      financial overview. */
  lemma StaffFundBeforeCompliance(message: string)
    requires Text.Contains(Text.Lower(message), "compliance")
    requires Text.Contains(Text.Lower(message), "fund")
    ensures Respond(Staff, message) == StaffFinancial
  {
    assert FinancialWords[0] == "fund";
  }

  /** "all donation history" is refused to a donor, though it also names
      the donation history. */
  lemma AllDonationHistoryRefused()
    ensures Respond(Donor, "all donation history") == Refusal
  {
    var m := Text.Lower("all donation history");
    assert m[0..12] == "all donation";
    MentionsWitness(m, DenialWords, 1, 0);
  }

  /** A group none of whose words can occur in `m`, each lacking one of
      the characters `m` is made of, is not mentioned. */
  lemma NotMentioned(m: string, words: seq<string>, missing: seq<char>)
    requires |missing| == |words|
    requires forall i :: 0 <= i < |words| ==> missing[i] in words[i] && missing[i] !in m
    ensures !Mentions(m, words)
  {
  }

  /** "help me donate" passes the donor gate and the first two donor
      rules, and asks for help. */
  lemma HelpMeDonateDonorGroups(m: string)
    requires m == "help me donate"
    ensures !Mentions(m, DenialWords) && !Mentions(m, HistoryWords) && !Mentions(m, CertificateWords)
    ensures Mentions(m, DonorImpactWords)
  {
    NotMentioned(m, DenialWords, "fifc");
    NotMentioned(m, HistoryWords, "yy");
    NotMentioned(m, CertificateWords, "c");
    assert m[0..4] == "help";
    MentionsWitness(m, DonorImpactWords, 1, 0);
  }

  /** "help me donate" is not about the mission, and asks how to donate. */
  lemma HelpMeDonatePublicGroups(m: string)
    requires m == "help me donate"
    ensures !Mentions(m, AboutWords) && Mentions(m, DonateWords)
  {
    NotMentioned(m, AboutWords, "ib");
    assert m[8..14] == "donate";
    MentionsWitness(m, DonateWords, 0, 8);
  }

  /** A donor's "help me donate" gets the personal impact summary, while a
      visitor gets the donation instructions. */
  lemma HelpMeDonate()
    ensures Respond(Donor, "help me donate") == DonorImpact
    ensures Respond(NoRole, "help me donate") == HowToDonate
  {
    var m := Text.Lower("help me donate");
    assert m == "help me donate";
    HelpMeDonateDonorGroups(m);
    HelpMeDonatePublicGroups(m);
  }
}
