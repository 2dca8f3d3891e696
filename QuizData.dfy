/** The static vocabulary of the quiz: the eight letters, the four dichotomies,
    the two answer values, the letter table that maps an answer on a dichotomy
    to a letter, and the question bank the engine reads. */
module QuizData {

  datatype Option<V> = None | Some(value: V)

  /** The eight single-letter trait codes. */
  datatype Letter = E | I | S | N | T | F | J | P

  /** The four axes: Energy, Information, Decision Making, Lifestyle. */
  datatype Dichotomy = EI | SN | TF | JP

  /** The value of the option a user picked on a question. */
  datatype Choice = A | B

  /** A question of the bank, reduced to what the engine reads: its stable id and
      the dichotomy it probes (prompt and option texts are presentation). */
  datatype Question = Question(id: int, dimension: Dichotomy)

  /** The four axes in the order the resolved type lists them. */
  const AXES: seq<Dichotomy> := [EI, SN, TF, JP]

  /** The left and right letter codes under which the results panel shows
      each axis, as characters. */
  function DisplayCodes(d: Dichotomy): (char, char)
  {
    match d
    case EI => ('E', 'I')
    case SN => ('S', 'N')
    case TF => ('T', 'F')
    case JP => ('J', 'P')
  }

  /** The letter table: option A leans to the first letter of the pair,
      option B to the second. The letter it gives is the one the results
      panel shows on that side of the axis. */
  function LetterFor(d: Dichotomy, c: Choice): (l: Letter)
    ensures Code(l) == if c == A then DisplayCodes(d).0 else DisplayCodes(d).1
  {
    match (d, c)
    case (EI, A) => E
    case (EI, B) => I
    case (SN, A) => S
    case (SN, B) => N
    case (TF, A) => T
    case (TF, B) => F
    case (JP, A) => J
    case (JP, B) => P
  }

  /** The first letter of an axis, the one that wins ties. */
  function Left(d: Dichotomy): Letter { LetterFor(d, A) }

  /** The second letter of an axis. */
  function Right(d: Dichotomy): Letter { LetterFor(d, B) }

  /** The character a letter is written with in a type code. */
  function Code(l: Letter): char
  {
    match l
    case E => 'E'
    case I => 'I'
    case S => 'S'
    case N => 'N'
    case T => 'T'
    case F => 'F'
    case J => 'J'
    case P => 'P'
  }

  /** No two entries of the letter table share a letter. */
  lemma LetterForInjective(d: Dichotomy, c: Choice, d': Dichotomy, c': Choice)
    ensures LetterFor(d, c) == LetterFor(d', c') <==> d == d' && c == c'
  {
  }

  /** Every one of the eight letters is an entry of the letter table. */
  lemma LetterForCovers(l: Letter)
    ensures exists d, c :: LetterFor(d, c) == l
  {
    match l
    case E => assert LetterFor(EI, A) == l;
    case I => assert LetterFor(EI, B) == l;
    case S => assert LetterFor(SN, A) == l;
    case N => assert LetterFor(SN, B) == l;
    case T => assert LetterFor(TF, A) == l;
    case F => assert LetterFor(TF, B) == l;
    case J => assert LetterFor(JP, A) == l;
    case P => assert LetterFor(JP, B) == l;
  }

  /** A four-letter type code: one letter of each axis, in axis order. */
  predicate IsMbtiType(s: string)
  {
    |s| == 4 &&
    forall k | 0 <= k < 4 :: s[k] == Code(Left(AXES[k])) || s[k] == Code(Right(AXES[k]))
  }

  /** The sixteen type codes the profile table is keyed by. */
  const MBTI_TYPES: set<string> := {
    "ESTJ", "ESTP", "ESFJ", "ESFP", "ENTJ", "ENTP", "ENFJ", "ENFP",
    "ISTJ", "ISTP", "ISFJ", "ISFP", "INTJ", "INTP", "INFJ", "INFP"
  }

  /** The four-letter codes are exactly the sixteen keys of the profile table. */
  lemma MbtiTypesAreTheSixteen(s: string)
    ensures IsMbtiType(s) <==> s in MBTI_TYPES
  {
    if IsMbtiType(s) {
      assert s == [s[0], s[1], s[2], s[3]];
      assert s[0] == 'E' || s[0] == 'I' by { assert AXES[0] == EI; }
      assert s[1] == 'S' || s[1] == 'N' by { assert AXES[1] == SN; }
      assert s[2] == 'T' || s[2] == 'F' by { assert AXES[2] == TF; }
      assert s[3] == 'J' || s[3] == 'P' by { assert AXES[3] == JP; }
    }
  }

  /** The ids of the questions of a bank. */
  function Ids(qs: seq<Question>): set<int>
  {
    set q | q in qs :: q.id
  }

  predicate DistinctIds(qs: seq<Question>)
  {
    forall i, j | 0 <= i < j < |qs| :: qs[i].id != qs[j].id
  }

  /** What the engine relies on about the static bank: it is not empty and
      no two questions share an id. */
  predicate ValidBank(bank: seq<Question>)
  {
    |bank| > 0 && DistinctIds(bank)
  }

  /** With distinct ids, a bank has exactly as many ids as questions. */
  lemma {:induction false} IdsCount(qs: seq<Question>)
    requires DistinctIds(qs)
    ensures |Ids(qs)| == |qs|
  {
    if qs != [] {
      DistinctTail(qs);
      IdsCount(qs[1..]);
      IdsSplit(qs);
    }
  }

  /** The ids of a non-empty bank are its head's id plus the ids of its tail,
      and with distinct ids the head's id is not among the tail's. */
  lemma IdsSplit(qs: seq<Question>)
    requires qs != []
    ensures Ids(qs) == {qs[0].id} + Ids(qs[1..])
    ensures DistinctIds(qs) ==> qs[0].id !in Ids(qs[1..])
  {
    assert qs == [qs[0]] + qs[1..];
  }

  /** Dropping the first question keeps the ids distinct. */
  lemma DistinctTail(qs: seq<Question>)
    requires qs != [] && DistinctIds(qs)
    ensures DistinctIds(qs[1..])
  {
    forall i, j | 0 <= i < j < |qs[1..]| ensures qs[1..][i].id != qs[1..][j].id {
      assert qs[1..][i] == qs[i + 1] && qs[1..][j] == qs[j + 1];
    }
  }
}
