/**
 * The rating display of a course card: each of the four average ratings of
 * a course is shown as a UW-Madison letter grade.
 */
module CourseCard {
  import opened Wrappers

  /** The seven UW-Madison letter grades, best first. */
  datatype Grade = A | AB | B | BC | C | D | F

  /** The grade's letters as the badge shows them. */
  function GradeName(g: Grade): string {
    match g
    case A => "A"
    case AB => "AB"
    case B => "B"
    case BC => "BC"
    case C => "C"
    case D => "D"
    case F => "F"
  }

  /** The grade's place in the order F < D < C < BC < B < AB < A. */
  function Rank(g: Grade): (r: nat)
    ensures r <= 6
  {
    match g
    case F => 0
    case D => 1
    case C => 2
    case BC => 3
    case B => 4
    case AB => 5
    case A => 6
  }

  /** The least rating that earns `g` (none for F, which every rating earns at worst). */
  function Threshold(g: Grade): Option<real> {
    match g
    case A => Some(4.7)
    case AB => Some(4.2)
    case B => Some(3.7)
    case BC => Some(3.2)
    case C => Some(2.5)
    case D => Some(1.5)
    case F => None
  }

  /** The next better grade, if any. */
  function Better(g: Grade): Option<Grade> {
    match g
    case F => Some(D)
    case D => Some(C)
    case C => Some(BC)
    case BC => Some(B)
    case B => Some(AB)
    case AB => Some(A)
    case A => None
  }

  /**
   * The band of ratings that earn `g`: at least its threshold (if it has one)
   * and below the threshold of the next better grade (if there is one).
   */
  predicate InBand(rating: real, g: Grade) {
    && (Threshold(g).Some? ==> rating >= Threshold(g).value)
    && (Better(g).Some? ==> rating < Threshold(Better(g).value).value)
  }

  /** `ratingToGrade`: the first threshold, from the top, that the rating reaches. */
  function RatingToGrade(rating: real): (g: Grade)
    ensures InBand(rating, g)
  {
    if rating >= 4.7 then A
    else if rating >= 4.2 then AB
    else if rating >= 3.7 then B
    else if rating >= 3.2 then BC
    else if rating >= 2.5 then C
    else if rating >= 1.5 then D
    else F
  }

  /** The grade names are exactly the seven of the badge's grade type, and distinct. */
  lemma GradeNamesDistinct(g: Grade, h: Grade)
    ensures GradeName(g) in {"A", "AB", "B", "BC", "C", "D", "F"}
    ensures GradeName(g) == GradeName(h) <==> g == h
  {
  }

  /** Each grade is given exactly on its half-open band of ratings. */
  lemma GradeBands(rating: real, g: Grade)
    ensures RatingToGrade(rating) == g <==> InBand(rating, g)
  {
  }

  /** A higher rating never yields a worse grade. */
  lemma RatingToGradeMonotone(r1: real, r2: real)
    requires r1 <= r2
    ensures Rank(RatingToGrade(r1)) <= Rank(RatingToGrade(r2))
  {
  }

  /** Every threshold is inclusive: a rating exactly on it earns that grade. */
  lemma ThresholdsInclusive(g: Grade)
    requires Threshold(g).Some?
    ensures RatingToGrade(Threshold(g).value) == g
  {
  }

  /** Ratings outside 1–5 still get a grade: below 1.5 is F, from 4.7 on (above 5 too) is A. */
  lemma OutOfScaleRatings(rating: real)
    ensures rating < 1.5 ==> RatingToGrade(rating) == F
    ensures rating >= 4.7 ==> RatingToGrade(rating) == A
  {
  }

  /** The four average ratings a course may have. */
  datatype AverageRatings = AverageRatings(content: real, teaching: real, grading: real, workload: real)

  /** One badge of the card: the dimension it labels and its grade. */
  datatype Badge = Badge(dimension: string, grade: Grade)

  /** What the card shows for ratings: four grade badges, or the "No reviews yet" note. */
  datatype RatingsView = Badges(badges: seq<Badge>) | NoReviewsYet

  /** The ratings part of a course card. */
  function RatingsSection(ratings: Option<AverageRatings>): (v: RatingsView)
    ensures v.Badges? <==> ratings.Some?
    ensures v.Badges? ==> |v.badges| == 4
    ensures v.Badges? ==> v.badges[0] == Badge("Content", RatingToGrade(ratings.value.content))
    ensures v.Badges? ==> v.badges[1] == Badge("Teaching", RatingToGrade(ratings.value.teaching))
    ensures v.Badges? ==> v.badges[2] == Badge("Grading", RatingToGrade(ratings.value.grading))
    ensures v.Badges? ==> v.badges[3] == Badge("Workload", RatingToGrade(ratings.value.workload))
  {
    match ratings
    case None => NoReviewsYet
    case Some(r) =>
      Badges([Badge("Content", RatingToGrade(r.content)),
              Badge("Teaching", RatingToGrade(r.teaching)),
              Badge("Grading", RatingToGrade(r.grading)),
              Badge("Workload", RatingToGrade(r.workload))])
  }

  /** Rating `i` of the four, in the order the badges are shown. */
  function Rating(r: AverageRatings, i: nat): real
    requires i < 4
  {
    match i
    case 0 => r.content
    case 1 => r.teaching
    case 2 => r.grading
    case _ => r.workload
  }

  /**
   * Each badge depends on its own dimension only: two rating sets that agree
   * on a dimension show the same badge for it, whatever the other three hold.
   */
  lemma BadgesIndependent(r: AverageRatings, s: AverageRatings, i: nat)
    requires i < 4
    ensures RatingsSection(Some(r)).badges[i].grade == RatingToGrade(Rating(r, i))
    ensures Rating(r, i) == Rating(s, i) ==> RatingsSection(Some(r)).badges[i] == RatingsSection(Some(s)).badges[i]
  {
  }
}
