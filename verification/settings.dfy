/**
 The configuration values the linter recognises by name (lint.go).
 */
module Settings {

  /** The width of a tab when a line length is measured and none is configured. */
  const DEFAULT_TAB_WIDTH: int := 8

  /** The value equivalent to an empty, unset one. */
  const UNSET_VALUE := "unset"
  const TAB_VALUE := "tab"
  const SPACE_VALUE := "space"
  const UTF8 := "utf-8"
  const LATIN1 := "latin1"
}
