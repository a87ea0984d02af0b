/** The fail-soft values of the header: the signed-in user's name and the product
    version, each loaded once by a request whose failure is absorbed into a
    fallback value instead of reaching the page. */
module RemoteValues {

  /** Where a one-shot JSON request stands: not settled yet, settled with the
      field read from its body, or failed (a status outside the ok range, a body
      that is not JSON, or a network error: all end in the same handler). */
  datatype Request<T> = Pending | Succeeded(body: T) | Failed

  /** What a slot shows: its initial value until the request settles, the fetched
      value on success, and `fallback` on failure. */
  function SlotValue<T>(initial: T, fallback: T, request: Request<T>): (r: T)
    ensures request.Succeeded? ==> r == request.body
    ensures request.Pending? ==> r == initial
    ensures request.Failed? ==> r == fallback
  {
    match request
    case Pending => initial
    case Succeeded(v) => v
    case Failed => fallback
  }

  /** The initial and the failure value of the user-name slot. */
  const NoUsername := ""

  /** The initial and the failure value of the version slot. */
  const NoVersion := "undefined"

  /** The user name shown in the user menu's toggle. */
  function Username(request: Request<string>): string
  {
    SlotValue(NoUsername, NoUsername, request)
  }

  /** The version value held by the About modal. */
  function Version(request: Request<string>): string
  {
    SlotValue(NoVersion, NoVersion, request)
  }

  /** What the About modal draws for a version value. */
  datatype VersionView = Spinner | Text(version: string)

  /** The spinner stands in for the value `"undefined"`; any other value is shown as it is. */
  function ViewVersion(version: string): (v: VersionView)
    ensures v.Spinner? <==> version == NoVersion
    ensures v.Text? ==> v.version == version
  {
    if version == NoVersion then Spinner else Text(version)
  }

  /** A failed request leaves the user name exactly as it was before the request
      settled: the empty string. */
  lemma UsernameFailSoft()
    ensures Username(Failed) == Username(Pending) == ""
  {
  }

  /** The user name is empty exactly when the request is pending, failed, or
      returned an empty name. */
  lemma UsernameEmptyIff(request: Request<string>)
    ensures Username(request) == "" <==> !request.Succeeded? || request.body == ""
  {
  }

  /** A failed request leaves the version at `"undefined"`, as before it settled. */
  lemma VersionFailSoft()
    ensures Version(Failed) == Version(Pending) == "undefined"
  {
  }

  /** The spinner shows exactly while the version request is pending, after it
      failed, or when the server itself answered `"undefined"`; otherwise the
      fetched version is shown verbatim. */
  lemma VersionSpinnerIff(request: Request<string>)
    ensures ViewVersion(Version(request)) == Spinner
            <==> !request.Succeeded? || request.body == "undefined"
    ensures request.Succeeded? && request.body != "undefined"
            ==> ViewVersion(Version(request)) == Text(request.body)
  {
  }
}
