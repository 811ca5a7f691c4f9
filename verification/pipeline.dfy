/** The exported entry point, `module.exports = (paths, opts, cb)`: the
    paths are expanded first, and the markdownlint engine is asked to lint
    the expanded files with the given configuration only when the expansion
    succeeded; an expansion failure goes straight to the callback. The
    engine is an input: a function from files and configuration to its
    result or its error. */
module Pipeline {

  import opened Outcomes
  import opened Extension
  import opened Options
  import opened Expansion
  import opened Report

  /** What the engine does with `{ files, config }`. */
  type Engine = (seq<string>, Config) -> Result<LintResults>

  /** Runs the gate. `r` is what reaches the callback, and `handed` the file
      list the engine was called with, `None` when it was never called. */
  method Mdlint(paths: seq<string>, opts: RunOptions, env: Env, engine: Engine)
    returns (r: Result<LintResults>, handed: Option<seq<string>>)
    ensures ReadFilesResult(paths, opts.ignore, env).Err? ==>
      handed == None && r == Err(ReadFilesResult(paths, opts.ignore, env).error)
    ensures ReadFilesResult(paths, opts.ignore, env).Ok? ==>
      handed == Some(ReadFilesResult(paths, opts.ignore, env).value) && r == engine(handed.value, opts.config)
    ensures handed.Some? ==> forall f :: f in handed.value ==> HasKnownExtension(f)
    ensures paths == [] ==> handed == Some([]) && r == engine([], opts.config)
  {
    var files := ReadFiles(paths, opts.ignore, env);
    if files.Err? {
      return Err(files.error), None;
    }
    handed := Some(files.value);
    r := engine(files.value, opts.config);
  }
}
