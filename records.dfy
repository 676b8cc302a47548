/**
 * A launch record as the data source delivers it, and the two display rules
 * that each card applies to it (src/view/Launches.jsx:104 and :137).
 */
module Records {

  datatype Option<T> = None | Some(value: T)

  const UPCOMING_LABEL := "Upcoming"
  const FAILED_LABEL := "Failed"
  const NO_DETAILS := "No details available"

  /**
   * One record of the fetched JSON array. It is a class so that two records
   * with equal fields are still distinct objects: the component tracks the
   * selected card with `===`. The fields never change after the fetch.
   */
  class Launch {
    const missionName: string
    const upcoming: bool
    const launchDateLocal: string
    const details: Option<string>
    const missionPatchSmall: Option<string>

    constructor (missionName: string, upcoming: bool, launchDateLocal: string,
                 details: Option<string>, missionPatchSmall: Option<string>)
      ensures this.missionName == missionName && this.upcoming == upcoming
      ensures this.launchDateLocal == launchDateLocal
      ensures this.details == details && this.missionPatchSmall == missionPatchSmall
    {
      this.missionName := missionName;
      this.upcoming := upcoming;
      this.launchDateLocal := launchDateLocal;
      this.details := details;
      this.missionPatchSmall := missionPatchSmall;
    }
  }

  /** The status badge: every launch that is not upcoming is shown as failed. */
  function StatusLabel(l: Launch): (badge: string)
    ensures badge == UPCOMING_LABEL <==> l.upcoming
    ensures badge == FAILED_LABEL <==> !l.upcoming
  {
    if l.upcoming then UPCOMING_LABEL else FAILED_LABEL
  }

  /**
   * The text of the details panel: `details || placeholder`, where a
   * string-or-null field is falsy exactly when it is null or "".
   */
  function DetailsText(l: Launch): (text: string)
    ensures text != ""
    ensures l.details.Some? && l.details.value != "" ==> text == l.details.value
    ensures l.details == None || l.details == Some("") ==> text == NO_DETAILS
  {
    match l.details
    case Some(d) => if d != "" then d else NO_DETAILS
    case None => NO_DETAILS
  }
}
