/**
 * The worker record (app.py:7-21) and the two generators of synthetic
 * workers (app.py:112-135), with their random draws passed in.
 */
module Workers {
  import opened Wrappers
  import opened Calendar
  import opened DateText
  import opened Collation

  /**
   * One worker, as `Worker.__init__` builds it (app.py:9-12): three strings
   * taken as given, with no check of the date of birth or of the sex.
   */
  datatype Worker = Worker(name: string, dob: string, sex: string)

  datatype AgeError = MalformedDob

  /**
   * `Worker.get_age` with the clock reading `now` passed in (app.py:15-21).
   * A date of birth that does not parse is the `ValueError` of `strptime`.
   */
  function GetAge(w: Worker, now: Date): (r: Result<int, AgeError>)
    ensures r.Err? <==> ParseDate(w.dob).None?
    ensures r.Ok? ==> forall k :: Reached(ParseDate(w.dob).value, now, k) <==> k <= r.value
  {
    match ParseDate(w.dob)
    case None => Err(MalformedDob)
    case Some(birth) =>
      AgeCountsBirthdays(birth, now);
      Ok(AgeOn(birth, now))
  }

  /** Anyone born on or before `now` with a well-formed date of birth has a non-negative age. */
  lemma GetAgeNonNegative(w: Worker, now: Date)
    requires ParseDate(w.dob).Some? && DateLe(ParseDate(w.dob).value, now)
    ensures GetAge(w, now).Ok? && GetAge(w, now).value >= 0
  {
  }

  const RandomFirstNames: seq<string> := ["James", "Robert", "John", "David", "Michael"]
  const Patronymics: seq<string> := ["Ivanovich", "Sergeevich", "Petrovich", "Anatolievich", "Dmitrievich"]
  const RandomSurnames: seq<string> := ["Smith", "Johnson", "Williams", "Brown", "Jones"]
  const Sexes: seq<string> := ["Male", "Female"]
  const SpecialFirstNames: seq<string> := ["Frank", "Fred", "Felix", "Ford"]
  const SpecialSurnameEndings: seq<string> := ["ox", "itz", "rost", "ield"]

  /** The draws of one `random_worker` call. */
  datatype RandomPick = RandomPick(first: string, middle: string, last: string, birth: Date, sex: string)

  predicate ValidRandomPick(p: RandomPick) {
    && p.first in RandomFirstNames
    && p.middle in Patronymics
    && p.last in RandomSurnames
    && InRandomDateRange(p.birth)
    && p.sex in Sexes
  }

  /** The draws of one round of the loop in `special_workers`. */
  datatype SpecialPick = SpecialPick(first: string, ending: string, middle: string, birth: Date)

  predicate ValidSpecialPick(p: SpecialPick) {
    && p.first in SpecialFirstNames
    && p.ending in SpecialSurnameEndings
    && p.middle in Patronymics
    && InRandomDateRange(p.birth)
  }

  /**
   * `random_worker` (app.py:112-120): no surname it draws begins with `F`
   * in either case, and the sex is one of the two expected values.
   */
  function RandomWorker(p: RandomPick): (w: Worker)
    requires ValidRandomPick(p)
    ensures !LikePrefix(w.name, "F")
    ensures w.sex == "Male" || w.sex == "Female"
  {
    var name := p.last + " " + p.first + " " + p.middle;
    LikeF(name);
    Worker(name, RandomDate(p.birth), p.sex)
  }

  /** `[random_worker() for _ in range(n)]` with the draws passed in (app.py:181). */
  function RandomWorkers(picks: seq<RandomPick>): (ws: seq<Worker>)
    requires forall i :: 0 <= i < |picks| ==> ValidRandomPick(picks[i])
    ensures |ws| == |picks|
    ensures forall i :: 0 <= i < |ws| ==> !LikePrefix(ws[i].name, "F")
  {
    seq(|picks|, i requires 0 <= i < |picks| => RandomWorker(picks[i]))
  }

  /** One worker of `special_workers` (app.py:128-133): a man whose surname begins with `F`. */
  function SpecialWorker(p: SpecialPick): (w: Worker)
    requires ValidSpecialPick(p)
    ensures w.sex == "Male" && LikePrefix(w.name, "F")
  {
    var name := "F" + p.ending + " " + p.first + " " + p.middle;
    LikeF(name);
    Worker(name, RandomDate(p.birth), "Male")
  }

  /**
   * Every generated worker has a date of birth that `get_age` parses back
   * to the drawn date, so its age is defined.
   */
  lemma GeneratedDobsParse(r: RandomPick, s: SpecialPick, now: Date)
    requires ValidRandomPick(r) && ValidSpecialPick(s)
    ensures ParseDate(RandomWorker(r).dob) == Some(r.birth)
    ensures ParseDate(SpecialWorker(s).dob) == Some(s.birth)
    ensures GetAge(RandomWorker(r), now).Ok? && GetAge(SpecialWorker(s), now).Ok?
  {
    RandomDateParses(r.birth);
    RandomDateParses(s.birth);
  }

  /** `special_workers` (app.py:122-135): one hundred rounds, each appending one worker. */
  method SpecialWorkers(picks: seq<SpecialPick>) returns (workers: seq<Worker>)
    requires |picks| == 100
    requires forall i :: 0 <= i < |picks| ==> ValidSpecialPick(picks[i])
    ensures |workers| == 100
    ensures forall i :: 0 <= i < 100 ==> workers[i] == SpecialWorker(picks[i])
    ensures forall i :: 0 <= i < 100 ==> workers[i].sex == "Male" && LikePrefix(workers[i].name, "F")
  {
    workers := [];
    for k := 0 to 100
      invariant |workers| == k
      invariant forall i :: 0 <= i < k ==> workers[i] == SpecialWorker(picks[i])
    {
      workers := workers + [SpecialWorker(picks[k])];
    }
    SpecialWorkersMatch(picks, workers);
  }

  /** Workers built by `SpecialWorker` are all men whose names begin with `F`. */
  lemma SpecialWorkersMatch(picks: seq<SpecialPick>, workers: seq<Worker>)
    requires |workers| == |picks|
    requires forall i :: 0 <= i < |picks| ==> ValidSpecialPick(picks[i])
    requires forall i :: 0 <= i < |picks| ==> workers[i] == SpecialWorker(picks[i])
    ensures forall i :: 0 <= i < |workers| ==> workers[i].sex == "Male" && LikePrefix(workers[i].name, "F")
  {
  }
}
