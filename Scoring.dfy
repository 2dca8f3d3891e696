/** The scoring engine: the per-letter tally folded over the question bank, the
    resolved four-letter type, the per-axis percentage split, the progress
    percentage and the profile lookup. Everything here is recomputed from the
    answer map on every read; nothing is stored. */
module Scoring {
  import opened QuizData

  /** Counts for the eight letters. */
  datatype Tally = Tally(e: nat, i: nat, s: nat, n: nat, t: nat, f: nat, j: nat, p: nat)
  {
    function Count(l: Letter): nat
    {
      match l
      case E => e
      case I => i
      case S => s
      case N => n
      case T => t
      case F => f
      case J => j
      case P => p
    }

    /** One more vote for `l`; every other count is kept. */
    function Bump(l: Letter): (r: Tally)
      ensures r.Count(l) == Count(l) + 1
      ensures forall m :: m != l ==> r.Count(m) == Count(m)
    {
      match l
      case E => this.(e := e + 1)
      case I => this.(i := i + 1)
      case S => this.(s := s + 1)
      case N => this.(n := n + 1)
      case T => this.(t := t + 1)
      case F => this.(f := f + 1)
      case J => this.(j := j + 1)
      case P => this.(p := p + 1)
    }
  }

  /** The starting tally: every letter at zero. */
  const ZERO_TALLY: Tally := Tally(0, 0, 0, 0, 0, 0, 0, 0)

  /** The answer map: question id to the value of the option picked. */
  type Responses = map<int, Choice>

  /** Question `q` has a recorded answer and that answer maps to letter `l`. */
  predicate VotesFor(q: Question, responses: Responses, l: Letter)
  {
    q.id in responses && LetterFor(q.dimension, responses[q.id]) == l
  }

  /** How many questions of `qs` have an answer that maps to `l`. */
  function Votes(qs: seq<Question>, responses: Responses, l: Letter): nat
  {
    if qs == [] then 0
    else (if VotesFor(qs[0], responses, l) then 1 else 0) + Votes(qs[1..], responses, l)
  }

  /** How many questions of `qs` on axis `d` have an answer. */
  function AnsweredOn(qs: seq<Question>, responses: Responses, d: Dichotomy): nat
  {
    if qs == [] then 0
    else (if qs[0].id in responses && qs[0].dimension == d then 1 else 0) + AnsweredOn(qs[1..], responses, d)
  }

  /** How many questions of `qs` have an answer. */
  function AnsweredAmong(qs: seq<Question>, responses: Responses): nat
  {
    if qs == [] then 0
    else (if qs[0].id in responses then 1 else 0) + AnsweredAmong(qs[1..], responses)
  }

  /** One step of the reduce: an unanswered question leaves the accumulator as
      it is, an answered one adds a vote for the letter its answer maps to. */
  function Step(acc: Tally, q: Question, responses: Responses): Tally
  {
    if q.id !in responses then acc
    else acc.Bump(LetterFor(q.dimension, responses[q.id]))
  }

  /** The reduce over the bank, left to right, from accumulator `acc`. */
  function Tallied(acc: Tally, qs: seq<Question>, responses: Responses): (r: Tally)
    ensures forall l :: r.Count(l) == acc.Count(l) + Votes(qs, responses, l)
    decreases |qs|
  {
    if qs == [] then acc
    else Tallied(Step(acc, qs[0], responses), qs[1..], responses)
  }

  /** The scores: the reduce started from the zero tally, so each letter's count
      is the number of answered questions whose answer maps to it. */
  function Scores(bank: seq<Question>, responses: Responses): (r: Tally)
    ensures forall l :: r.Count(l) == Votes(bank, responses, l)
  {
    Tallied(ZERO_TALLY, bank, responses)
  }

  // ----- how the votes add up ------------------------------------------------

  /** The two letters of an axis together get one vote per answered question on
      that axis. */
  lemma {:induction false} AxisVotes(qs: seq<Question>, responses: Responses, d: Dichotomy)
    ensures Votes(qs, responses, Left(d)) + Votes(qs, responses, Right(d)) == AnsweredOn(qs, responses, d)
  {
    if qs != [] {
      AxisVotes(qs[1..], responses, d);
      if qs[0].id in responses {
        LetterForInjective(qs[0].dimension, responses[qs[0].id], d, A);
        LetterForInjective(qs[0].dimension, responses[qs[0].id], d, B);
      }
    }
  }

  /** For each axis, left count plus right count is the number of answered
      questions on that axis. */
  lemma AxisCountsAnswered(bank: seq<Question>, responses: Responses, d: Dichotomy)
    ensures Scores(bank, responses).Count(Left(d)) + Scores(bank, responses).Count(Right(d))
         == AnsweredOn(bank, responses, d)
  {
    AxisVotes(bank, responses, d);
  }

  /** Every answered question lies on exactly one axis. */
  lemma {:induction false} AnsweredByAxis(qs: seq<Question>, responses: Responses)
    ensures AnsweredOn(qs, responses, EI) + AnsweredOn(qs, responses, SN)
          + AnsweredOn(qs, responses, TF) + AnsweredOn(qs, responses, JP)
         == AnsweredAmong(qs, responses)
  {
    if qs != [] {
      AnsweredByAxis(qs[1..], responses);
    }
  }

  /** The eight counts together are the number of answered questions: each
      answer adds exactly one vote. */
  lemma {:induction false} CountsSumToAnswered(bank: seq<Question>, responses: Responses)
    ensures var t := Scores(bank, responses);
      t.Count(E) + t.Count(I) + t.Count(S) + t.Count(N)
      + t.Count(T) + t.Count(F) + t.Count(J) + t.Count(P)
      == AnsweredAmong(bank, responses)
  {
    var t := Scores(bank, responses);
    assert Left(EI) == E && Right(EI) == I && Left(SN) == S && Right(SN) == N;
    assert Left(TF) == T && Right(TF) == F && Left(JP) == J && Right(JP) == P;
    AxisVotes(bank, responses, EI);
    AxisVotes(bank, responses, SN);
    AxisVotes(bank, responses, TF);
    AxisVotes(bank, responses, JP);
    assert t.Count(E) + t.Count(I) == AnsweredOn(bank, responses, EI);
    assert t.Count(S) + t.Count(N) == AnsweredOn(bank, responses, SN);
    assert t.Count(T) + t.Count(F) == AnsweredOn(bank, responses, TF);
    assert t.Count(J) + t.Count(P) == AnsweredOn(bank, responses, JP);
    AnsweredByAxis(bank, responses);
  }

  /** At most one answer per question is counted, and the count reaches the
      number of questions exactly when every question is answered. */
  lemma {:induction false} AnsweredAmongBound(qs: seq<Question>, responses: Responses)
    ensures AnsweredAmong(qs, responses) <= |qs|
    ensures AnsweredAmong(qs, responses) == |qs| <==> forall q | q in qs :: q.id in responses
  {
    if qs != [] {
      AnsweredAmongBound(qs[1..], responses);
      assert qs == [qs[0]] + qs[1..];
    }
  }

  /** With distinct ids, the answered questions of `qs` are the answer keys that
      are ids of `qs`. */
  lemma {:induction false} AnsweredAmongIsKeys(qs: seq<Question>, responses: Responses)
    requires DistinctIds(qs)
    ensures AnsweredAmong(qs, responses) == |responses.Keys * Ids(qs)|
  {
    if qs != [] {
      DistinctTail(qs);
      AnsweredAmongIsKeys(qs[1..], responses);
      IdsSplit(qs);
      KeysSplit(responses.Keys, qs[0].id, Ids(qs[1..]));
    }
  }

  /** Splitting off one id that is not among the others adds one to the count
      of keys when the id is a key, and nothing otherwise. */
  lemma KeysSplit(keys: set<int>, id: int, others: set<int>)
    requires id !in others
    ensures |keys * ({id} + others)| == (if id in keys then 1 else 0) + |keys * others|
  {
    var head, rest := keys * {id}, keys * others;
    assert keys * ({id} + others) == head + rest;
    assert head !! rest;
    if id in keys { assert head == {id}; } else { assert head == {}; }
  }

  /** When every answer belongs to a question of the bank, the number of answer
      keys is the number of answered questions: it never exceeds the bank's
      size, and it equals it exactly when every question is answered. */
  lemma AnswerCountMeansComplete(bank: seq<Question>, responses: Responses)
    requires DistinctIds(bank) && responses.Keys <= Ids(bank)
    ensures |responses| == AnsweredAmong(bank, responses)
    ensures |responses| <= |bank|
    ensures |responses| == |bank| <==> forall q | q in bank :: q.id in responses
  {
    AnsweredAmongIsKeys(bank, responses);
    assert responses.Keys * Ids(bank) == responses.Keys;
    AnsweredAmongBound(bank, responses);
  }

  /** Nothing maps to `l`, so `l` gets no vote. */
  lemma {:induction false} NoVotes(qs: seq<Question>, responses: Responses, l: Letter)
    requires forall q | q in qs :: !VotesFor(q, responses, l)
    ensures Votes(qs, responses, l) == 0
  {
    if qs != [] {
      assert qs[0] in qs;
      NoVotes(qs[1..], responses, l);
    }
  }

  /** The votes depend only on the answers to the questions counted. */
  lemma {:induction false} VotesAgree(qs: seq<Question>, r1: Responses, r2: Responses, l: Letter)
    requires forall k | k in Ids(qs) :: (k in r1 <==> k in r2) && (k in r1 ==> r1[k] == r2[k])
    ensures Votes(qs, r1, l) == Votes(qs, r2, l)
  {
    if qs != [] {
      IdsSplit(qs);
      VotesAgree(qs[1..], r1, r2, l);
    }
  }

  /** Recording answer `v` for question `q` (over whatever was there before)
      gives the tally of the other answers plus exactly one vote for the letter
      `v` maps to on `q`'s axis. */
  lemma {:induction false} VotesAfterSelect(qs: seq<Question>, responses: Responses, q: Question, v: Choice, l: Letter)
    requires DistinctIds(qs) && q in qs
    ensures Votes(qs, responses[q.id := v], l)
         == Votes(qs, responses - {q.id}, l) + (if LetterFor(q.dimension, v) == l then 1 else 0)
  {
    var after, without := responses[q.id := v], responses - {q.id};
    IdsSplit(qs);
    DistinctTail(qs);
    if qs[0] == q {
      VotesAgree(qs[1..], after, without, l);
    } else {
      assert q in qs[1..];
      assert q.id in Ids(qs[1..]);
      VotesAfterSelect(qs[1..], responses, q, v, l);
    }
  }

  /** The tally after re-selecting reflects only the latest choice for that
      question. */
  lemma SelectReflectsLatest(bank: seq<Question>, responses: Responses, q: Question, v: Choice, l: Letter)
    requires DistinctIds(bank) && q in bank
    ensures Scores(bank, responses[q.id := v]).Count(l)
         == Scores(bank, responses - {q.id}).Count(l) + (if LetterFor(q.dimension, v) == l then 1 else 0)
  {
    VotesAfterSelect(bank, responses, q, v, l);
  }

  // ----- the resolved type ---------------------------------------------------

  /** The letter that wins axis `d`: the first one unless the second has
      strictly more votes. */
  function Winner(t: Tally, d: Dichotomy): Letter
  {
    if t.Count(Left(d)) >= t.Count(Right(d)) then Left(d) else Right(d)
  }

  /** The four-letter type, present only when the number of answers equals the
      number of questions. */
  function PersonalityType(bank: seq<Question>, responses: Responses): (r: Option<string>)
    ensures r.None? <==> |responses| != |bank|
    ensures r.Some? ==> IsMbtiType(r.value)
    ensures r.Some? ==> forall k | 0 <= k < 4 ::
      ((r.value[k] == Code(Left(AXES[k])))
         <==> (Scores(bank, responses).Count(Left(AXES[k])) >= Scores(bank, responses).Count(Right(AXES[k]))))
  {
    if |responses| != |bank| then None
    else
      var t := Scores(bank, responses);
      var letters := [Code(Winner(t, EI)), Code(Winner(t, SN)), Code(Winner(t, TF)), Code(Winner(t, JP))];
      Some(letters)
  }

  /** The type is present exactly when every question of the bank has an
      answer (given that every answer is keyed by a question of the bank). */
  lemma TypeDefinedIffComplete(bank: seq<Question>, responses: Responses)
    requires DistinctIds(bank) && responses.Keys <= Ids(bank)
    ensures PersonalityType(bank, responses).Some? <==> forall q | q in bank :: q.id in responses
  {
    AnswerCountMeansComplete(bank, responses);
  }

  /** Every present type has an entry in a profile table keyed by the sixteen
      types. */
  lemma ResolvedTypeIsAProfileKey(bank: seq<Question>, responses: Responses)
    requires PersonalityType(bank, responses).Some?
    ensures PersonalityType(bank, responses).value in MBTI_TYPES
  {
    MbtiTypesAreTheSixteen(PersonalityType(bank, responses).value);
  }

  /** The same answer on every question of the bank. */
  function Uniform(bank: seq<Question>, c: Choice): (r: Responses)
    ensures r.Keys == Ids(bank)
    ensures forall k | k in r :: r[k] == c
  {
    map k | k in Ids(bank) :: c
  }

  /** Answering "A" everywhere yields ESTJ. */
  lemma AllAYieldsESTJ(bank: seq<Question>)
    requires DistinctIds(bank)
    ensures PersonalityType(bank, Uniform(bank, A)) == Some("ESTJ")
  {
    var r := Uniform(bank, A);
    IdsCount(bank);
    assert |r| == |r.Keys| == |bank|;
    forall d: Dichotomy ensures Votes(bank, r, Right(d)) == 0 {
      NoVotes(bank, r, Right(d));
    }
  }

  /** The axes that at least one question of the bank probes. */
  function Dimensions(bank: seq<Question>): set<Dichotomy>
  {
    set q | q in bank :: q.dimension
  }

  /** A question answered on axis `d` makes the axis count positive. */
  lemma {:induction false} AnsweredOnPositive(qs: seq<Question>, responses: Responses, q: Question)
    requires q in qs && q.id in responses
    ensures AnsweredOn(qs, responses, q.dimension) >= 1
  {
    if qs[0] != q {
      AnsweredOnPositive(qs[1..], responses, q);
    }
  }

  /** Answering "B" everywhere yields INFP, provided every axis has a question:
      on an axis with no question both counts are zero and the tie goes to the
      first letter. */
  lemma AllBYieldsINFP(bank: seq<Question>)
    requires DistinctIds(bank)
    requires Dimensions(bank) == {EI, SN, TF, JP}
    ensures PersonalityType(bank, Uniform(bank, B)) == Some("INFP")
  {
    var r := Uniform(bank, B);
    IdsCount(bank);
    assert |r| == |r.Keys| == |bank|;
    forall d: Dichotomy ensures Votes(bank, r, Left(d)) < Votes(bank, r, Right(d)) {
      NoVotes(bank, r, Left(d));
      AxisVotes(bank, r, d);
      assert d in Dimensions(bank);
      var q :| q in bank && q.dimension == d;
      AnsweredOnPositive(bank, r, q);
    }
  }

  /** With no answers every count is zero, every split is 0% / 0% and the type
      is absent. */
  lemma NoAnswers(bank: seq<Question>, left: Letter, right: Letter)
    requires |bank| > 0
    ensures Scores(bank, map[]) == ZERO_TALLY
    ensures PercentageFor(Scores(bank, map[]), left, right) == Split(0, 0)
    ensures PersonalityType(bank, map[]) == None
  {
    forall l: Letter ensures Votes(bank, map[], l) == 0 {
      NoVotes(bank, map[], l);
    }
    var t := Scores(bank, map[]);
    assert t.e == t.Count(E) && t.i == t.Count(I) && t.s == t.Count(S) && t.n == t.Count(N);
    assert t.t == t.Count(T) && t.f == t.Count(F) && t.j == t.Count(J) && t.p == t.Count(P);
  }

  // ----- rounding, percentages and progress ----------------------------------

  /** x / d rounded to the nearest integer, halves upwards: the integer r with
      r - 1/2 <= x/d < r + 1/2. */
  function Round(x: nat, d: nat): (r: nat)
    requires d > 0
    ensures d * (2 * r - 1) <= 2 * x < d * (2 * r + 1)
  {
    var q := (2 * x + d) / (2 * d);
    assert 2 * d * q <= 2 * x + d < 2 * d * q + 2 * d;
    q
  }

  /** Rounding preserves order. */
  lemma RoundMonotone(x1: nat, x2: nat, d: nat)
    requires d > 0
    ensures x1 <= x2 ==> Round(x1, d) <= Round(x2, d)
  {
    var r1, r2 := Round(x1, d), Round(x2, d);
    if r1 > r2 {
      assert d * (2 * r1 - 1) >= d * (2 * r2 + 1) by {
        assert 2 * r1 - 1 >= 2 * r2 + 1;
        MulMonotone(d, 2 * r2 + 1, 2 * r1 - 1);
      }
    }
  }

  lemma MulMonotone(d: nat, a: int, b: int)
    requires a <= b
    ensures d * a <= d * b
    ensures d > 0 && a < b ==> d * a < d * b
  {
    assert d * b - d * a == d * (b - a);
  }

  /** 100 * x / d rounded half up: the percentage of x in d. */
  function Percent(x: nat, d: nat): (r: nat)
    requires d > 0
    ensures d * (2 * r - 1) <= 200 * x < d * (2 * r + 1)
    ensures x <= d ==> r <= 100
    ensures x >= d ==> r >= 100
  {
    RoundMonotone(100 * x, 100 * d, d);
    RoundMonotone(100 * d, 100 * x, d);
    RoundWhole(100, d);
    Round(100 * x, d)
  }

  /** A whole multiple of d rounds to itself. */
  lemma RoundWhole(m: nat, d: nat)
    requires d > 0
    ensures Round(m * d, d) == m
  {
    var r: int := Round(m * d, d);
    OnlyMultipleInBracket(d, m, r);
  }

  /** The only integer r with d(2r - 1) <= 2md < d(2r + 1) is m. */
  lemma OnlyMultipleInBracket(d: nat, m: int, r: int)
    requires d > 0
    requires d * (2 * r - 1) <= 2 * (m * d) < d * (2 * r + 1)
    ensures r == m
  {
    assert d * (2 * m) == 2 * (m * d);
    if r < m {
      MulMonotone(d, 2 * r + 1, 2 * m);
    } else if r > m {
      MulMonotone(d, 2 * m, 2 * r - 1);
    }
  }

  /** Two percentages of the same whole, rounded independently, add up to 100
      or to 101 (when both halves sit exactly on .5). */
  lemma SplitSum(x: nat, y: nat)
    ensures x + y > 0 ==> 100 <= Percent(x, x + y) + Percent(y, x + y) <= 101
  {
    if x + y == 0 { return; }
    var d, a, b := x + y, Percent(x, x + y), Percent(y, x + y);
    assert d * (2 * a + 2 * b - 2) <= 200 * d < d * (2 * a + 2 * b + 2) by {
      assert d * (2 * a + 2 * b - 2) == d * (2 * a - 1) + d * (2 * b - 1);
      assert d * (2 * a + 2 * b + 2) == d * (2 * a + 1) + d * (2 * b + 1);
    }
    if a + b < 100 {
      MulMonotone(d, 2 * a + 2 * b + 2, 200);
    } else if a + b > 101 {
      MulMonotone(d, 200, 2 * a + 2 * b - 2);
    }
  }

  /** The two sides of an axis, in percent. */
  datatype Split = Split(left: nat, right: nat)

  /** The split of an axis: each side's share of the axis total, rounded half
      up, with the total floored to 1 so that an axis without votes shows
      0% / 0%. */
  function PercentageFor(t: Tally, left: Letter, right: Letter): (sp: Split)
    ensures t.Count(left) + t.Count(right) == 0 ==> sp == Split(0, 0)
    ensures t.Count(left) + t.Count(right) > 0 ==>
      var total := t.Count(left) + t.Count(right);
      && total * (2 * sp.left - 1) <= 200 * t.Count(left) < total * (2 * sp.left + 1)
      && total * (2 * sp.right - 1) <= 200 * t.Count(right) < total * (2 * sp.right + 1)
      && 100 <= sp.left + sp.right <= 101
    ensures sp.left <= 100 && sp.right <= 100
    ensures t.Count(left) >= t.Count(right) ==> sp.left >= sp.right
    ensures t.Count(right) >= t.Count(left) ==> sp.right >= sp.left
  {
    var l, r := t.Count(left), t.Count(right);
    var total := if l + r == 0 then 1 else l + r;
    SplitSum(l, r);
    RoundMonotone(100 * r, 100 * l, total);
    RoundMonotone(100 * l, 100 * r, total);
    Split(Percent(l, total), Percent(r, total))
  }

  /** The progress percentage: answered over total, rounded half up, capped at
      100. The cap only acts when there are more answers than questions. */
  function Progress(answered: nat, total: nat): (r: nat)
    requires total > 0
    ensures r <= 100
    ensures answered == 0 ==> r == 0
    ensures answered >= total ==> r == 100
    ensures answered <= total ==> total * (2 * r - 1) <= 200 * answered < total * (2 * r + 1)
  {
    var rounded := Percent(answered, total);
    if rounded < 100 then rounded else 100
  }

  // ----- the profile lookup --------------------------------------------------

  /** The profile shown for a type: looked up in the static table when a type
      is present. */
  function ProfileFor<Profile>(table: map<string, Profile>, ty: Option<string>): (r: Option<Profile>)
    ensures r.Some? <==> ty.Some? && ty.value in table
    ensures r.Some? ==> r.value == table[ty.value]
    ensures MBTI_TYPES <= table.Keys && ty.Some? && IsMbtiType(ty.value) ==> r.Some?
  {
    MbtiTypesAreTheSixteen(if ty.Some? then ty.value else "");
    if ty.Some? && ty.value in table then Some(table[ty.value]) else None
  }

  /** With a table that covers the sixteen types, a profile is shown exactly
      when a type is resolved. */
  lemma ProfileShownIffTyped<Profile>(table: map<string, Profile>, bank: seq<Question>, responses: Responses)
    requires MBTI_TYPES <= table.Keys
    ensures ProfileFor(table, PersonalityType(bank, responses)).Some? <==> PersonalityType(bank, responses).Some?
  {
    if PersonalityType(bank, responses).Some? {
      ResolvedTypeIsAProfileKey(bank, responses);
    }
  }
}
