/** How a stage of the conversion ends. */
module Steps {
  import opened FileTree

  /** Why a stage stopped early: a failed `assert`, a `sys.exit(1)`, or an `OSError`
      nobody catches. */
  datatype Failure = AssertionFailed | Exited | Raised

  datatype Outcome = Done | Failed(why: Failure)

  /** The tree a stage leaves behind and how it ended. A stage that fails keeps the
      changes it made before failing. */
  datatype Run = Run(tree: Tree, outcome: Outcome)
}
