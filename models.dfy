/**
 * The persistent records of planning poker: a Session (a room identified by
 * a six-digit code) and a Partie (one player's participation in a session),
 * with the session-code generator and the text forms of both records.
 */
module Models {

  import opened Options
  import opened Decimal

  /** `id_session` holds at most six characters; generated codes use all six. */
  const CodeLength: nat := 6

  /** The generator draws from `randint(0, 999999)`, both bounds included. */
  const CodeSpace: nat := 1000000

  lemma CodeSpaceIsPow10()
    ensures Pow10(CodeLength) == CodeSpace
  {
    assert Pow10(1) == 10 && Pow10(2) == 100 && Pow10(3) == 1000;
  }

  /** A well-formed session identifier: exactly six decimal digits. */
  predicate IsSessionCode(s: string) {
    |s| == CodeLength && AllDigits(s)
  }

  /**
   * The session-code generator, with the random draw taken as a parameter:
   * the drawn integer formatted as six digits with leading zeros.
   */
  function GenerateCode(drawn: nat): (code: string)
    requires drawn < CodeSpace
    ensures IsSessionCode(code)
    ensures Value(code) == drawn
  {
    CodeSpaceIsPow10();
    PadDigits(drawn, CodeLength)
  }

  /** Different draws give different codes. */
  lemma GenerateCodeInjective(a: nat, b: nat)
    requires a < CodeSpace && b < CodeSpace && a != b
    ensures GenerateCode(a) != GenerateCode(b)
  {
    assert Value(GenerateCode(a)) != Value(GenerateCode(b));
  }

  /** Every six-digit code is produced by exactly one draw: its own decimal value. */
  lemma EveryCodeIsGenerated(code: string)
    requires IsSessionCode(code)
    ensures Value(code) < CodeSpace
    ensures GenerateCode(Value(code)) == code
  {
    CodeSpaceIsPow10();
    PadDigitsOfValue(code);
  }

  /** The values the `status` field takes, in the order a session passes through them. */
  datatype Status = Open | InProgress | Closed

  /** The text stored in the `status` column; the three statuses are stored differently. */
  function StatusName(s: Status): (name: string)
    ensures |name| > 0
  {
    match s
    case Open => "open"
    case InProgress => "in_progress"
    case Closed => "closed"
  }

  lemma StatusNamesDistinct(s: Status, t: Status)
    ensures StatusName(s) == StatusName(t) ==> s == t
  {
  }

  /** Position of a status in the lifecycle open, in_progress, closed. */
  function StatusRank(s: Status): (rank: nat)
    ensures rank <= 2
    ensures s == Open <==> rank == 0
    ensures s == Closed <==> rank == 2
  {
    match s
    case Open => 0
    case InProgress => 1
    case Closed => 2
  }

  /** One backlog item of a session; `valeurFinale` stays `None` until the story is closed. */
  datatype Story = Story(nom: string, valeurFinale: Option<string>)

  datatype Session = Session(
    idSession: string,
    titre: string,
    stories: seq<Story>,
    modeDeJeu: string,
    status: Status)

  /** A player in a session: the card chosen (if any) and whether a vote was cast. */
  datatype Partie = Partie(
    username: string,
    idSession: string,
    carteChoisie: Option<string>,
    aVote: bool)

  /** A participation created without an explicit `a_vote` has not voted yet. */
  function NewPartie(username: string, idSession: string, carte: Option<string>): (p: Partie)
    ensures p.username == username && p.idSession == idSession
    ensures p.carteChoisie == carte && !p.aVote
  {
    Partie(username, idSession, carte, false)
  }

  /** The text form of a session: its title, then its code in parentheses. */
  function SessionLabel(s: Session): (text: string)
    ensures |text| == |s.titre| + |s.idSession| + 3
    ensures text[..|s.titre|] == s.titre
    ensures text[|s.titre| + 2 .. |text| - 1] == s.idSession
    ensures text[|s.titre|..|s.titre| + 2] == " (" && text[|text| - 1] == ')'
  {
    s.titre + " (" + s.idSession + ")"
  }

  /** The text form of a participation: "<username> in session <code>". */
  function PartieLabel(p: Partie): (text: string)
    ensures |text| == |p.username| + 12 + |p.idSession|
    ensures text[..|p.username|] == p.username
    ensures text[|text| - |p.idSession|..] == p.idSession
    ensures text[|p.username|..|p.username| + 12] == " in session "
  {
    p.username + " in session " + p.idSession
  }

  /** With six-digit codes, the text form of a session gives back its title and its code. */
  lemma SessionLabelReadsBack(a: Session, b: Session)
    requires IsSessionCode(a.idSession) && IsSessionCode(b.idSession)
    requires SessionLabel(a) == SessionLabel(b)
    ensures a.titre == b.titre && a.idSession == b.idSession
  {
  }

  /** With six-digit codes, the text form of a participation gives back its username and its session. */
  lemma PartieLabelReadsBack(a: Partie, b: Partie)
    requires IsSessionCode(a.idSession) && IsSessionCode(b.idSession)
    requires PartieLabel(a) == PartieLabel(b)
    ensures a.username == b.username && a.idSession == b.idSession
  {
  }
}
