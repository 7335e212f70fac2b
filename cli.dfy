/**
 * The one piece of logic in `main` besides wiring: the `--previewMode`
 * argument. Argument parsing itself, the YAML and CSV loaders and the
 * integer conversion of `--mailsPerTenMin` are not part of this model.
 */
module Cli {

  /** Default value of `--previewMode`. */
  const DefaultPreviewMode: string := "True"

  /** Only the exact string "False" turns preview mode off; every other value leaves it on. */
  function PreviewFlag(arg: string): (preview: bool)
    ensures !preview <==> arg == "False"
  {
    if arg == "False" then false else true
  }

  /** The default, and any spelling other than "False" (such as "false"), keeps preview mode on. */
  lemma PreviewByDefault()
    ensures PreviewFlag(DefaultPreviewMode)
    ensures PreviewFlag("false") && PreviewFlag("") && !PreviewFlag("False")
  {
  }
}
