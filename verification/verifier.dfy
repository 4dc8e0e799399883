/** The artifact check that closes every outer attempt
    (backend/agents/verifier_agent.py). */
module Verifier {

  /** What the check can observe of the disk: the paths that exist and their
      sizes in bytes. */
  type FileSystem = map<string, nat>

  /** `verify_pdf`: fails closed on a missing or empty file. */
  function VerifyPdf(fs: FileSystem, path: string): (ok: bool)
    ensures path !in fs ==> !ok
    ensures path in fs && fs[path] == 0 ==> !ok
    ensures path in fs && fs[path] > 0 ==> ok
  {
    if path !in fs then false
    else if fs[path] == 0 then false
    else true
  }

  /** The verdict depends on nothing but whether the path exists and how big
      it is: two disks that agree there get the same answer. */
  lemma VerdictDependsOnlyOnEntry(fs1: FileSystem, fs2: FileSystem, path: string)
    requires path in fs1 <==> path in fs2
    requires path in fs1 ==> fs1[path] == fs2[path]
    ensures VerifyPdf(fs1, path) == VerifyPdf(fs2, path)
  {
  }
}
