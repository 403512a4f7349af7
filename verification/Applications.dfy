/** The result of reading one desktop file (src/Application.hh). */
module Applications {
  datatype Application = Application(
    name: string,
    genericName: string,
    exec: string,
    path: string,
    location: string,
    terminal: bool
  )

  /** The constructor of `Application` rejects a file without a Name. */
  type NamedApplication = a: Application | a.name != "" witness Application("?", "", "", "", "", false)

  /** An application of which only the name matters. */
  function PlainApplication(name: string): NamedApplication
    requires name != ""
  {
    Application(name, "", "run", "", "", false)
  }

  /** The four outcomes of constructing an `Application` from a file. */
  datatype Parsed =
    | Populated(app: NamedApplication)
    | Disabled
    | Unreadable
    | Invalid
}
