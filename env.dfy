/** The host environment the library reads from: the parts of a browser
    `window` that the core looks at. The real `window` is passed in by the
    caller; nothing here reaches for a global. */
module Env {

  /** `window.navigator`: the user-agent string and the platform identifier. */
  datatype Navigator = Navigator(userAgent: string, platform: string)

  /** A window, seen only through its navigator. */
  datatype Window = Window(navigator: Navigator)
}
