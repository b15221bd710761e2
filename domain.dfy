/** The records the placement core reads and writes (src/types/database.ts and the result
    record of src/lib/algorithm.ts). Only the fields the core looks at are kept. Scores are
    integer hundredths of a point: 92.50 is 9250. */
module Domain {
  import opened Wrappers
  import opened Seqs

  type UserId = string
  type CityId = int

  /** A candidate. `yearsOfService` is optional in the source; a missing value ranks as 0. */
  datatype Profile = Profile(
    id: UserId,
    writtenScore: int,
    interviewScore: int,
    finalScore: int,
    wantsLottery: bool,
    yearsOfService: Option<int>)

  datatype City = City(id: CityId, name: string, isAvailable: bool)

  /** One entry of a user's preference list; a smaller `priority` is preferred. */
  datatype Preference = Preference(id: string, userId: UserId, cityId: CityId, priority: int)

  /** How a candidate was placed: the source's 'preference' | 'lottery' | 'unassigned'. */
  datatype AssignmentType = ByPreference | ByLottery | Unassigned

  /** What the placement engine returns for one candidate. */
  datatype AssignmentResult = AssignmentResult(
    userId: UserId,
    cityId: Option<CityId>,
    kind: AssignmentType,
    preferenceOrder: Option<int>)

  /** A stored assignment row, as the results page reads it back. */
  datatype Assignment = Assignment(id: string, userId: UserId, cityId: CityId, assignmentType: AssignmentType)

  /** Years of service with a missing value read as 0 (the source's `?? 0`). */
  function Years(p: Profile): int {
    p.yearsOfService.GetOr(0)
  }

  function IdOf(p: Profile): UserId {
    p.id
  }

  /** The ids of `profiles`, in order. */
  function ProfileIds(profiles: seq<Profile>): seq<UserId> {
    MapSeq(profiles, IdOf)
  }
}
