/** Values shared by the log/config parser and the run analyser: the failure
    wrappers that stand for Python exceptions, and the JSON-style records that
    both scripts build, persist and read back. */
module Values {

  /** A value that may be absent; usable with `:-`. */
  datatype Option<+T> = None | Some(value: T) {
    predicate IsFailure() { None? }

    function PropagateFailure<U>(): Option<U>
      requires None?
    {
      None
    }

    function Extract(): T
      requires Some?
    {
      value
    }
  }

  /** The exceptions the core can raise. */
  datatype Error =
    | MalformedNumber(text: string)  // int() or float() raised ValueError on `text`
    | MissingField(key: string)      // a dict subscript raised KeyError
    | MissingFile(name: string)      // the run directory lacks the named input file

  /** A computation that either yields a value or raises; usable with `:-`. */
  datatype Result<+T> = Ok(value: T) | Err(error: Error) {
    predicate IsFailure() { Err? }

    function PropagateFailure<U>(): Result<U>
      requires Err?
    {
      Err(error)
    }

    function Extract(): T
      requires Ok?
    {
      value
    }
  }

  /** A scalar as the summary records hold it: JSON null, a string, an
      integer or a float (floats are modelled as exact reals). */
  datatype Value = Null | Str(s: string) | Int(i: int) | Num(r: real)

  /** The fields the summary records carry: the five the run summariser
      always writes, the eight log facts, and the six resource statistics
      the analyser adds. `Name` is the JSON key each is stored under. */
  datatype Field =
    | RunDir | Tag | Ctx | GenTokens | ModelPath
    | PromptTps | GenTps
    | MetalFree | MetalUsed | MetalModel | MetalContext | MetalCompute | MetalUnaccounted
    | RssPeakMb | RssMeanMb | CpuMeanPct | PageinsFinal | PageoutsFinal | DurationS
  {
    function Name(): string {
      match this
      case RunDir => "run_dir"
      case Tag => "tag"
      case Ctx => "ctx"
      case GenTokens => "gen_tokens"
      case ModelPath => "model_path"
      case PromptTps => "prompt_tps"
      case GenTps => "gen_tps"
      case MetalFree => "metal_free_mib"
      case MetalUsed => "metal_used_mib"
      case MetalModel => "metal_model_mib"
      case MetalContext => "metal_context_mib"
      case MetalCompute => "metal_compute_mib"
      case MetalUnaccounted => "metal_unaccounted_mib"
      case RssPeakMb => "rss_peak_mb"
      case RssMeanMb => "rss_mean_mb"
      case CpuMeanPct => "cpu_mean_pct"
      case PageinsFinal => "pageins_final"
      case PageoutsFinal => "pageouts_final"
      case DurationS => "duration_s"
    }

    /** The fields the run summariser writes whatever the log holds. */
    predicate IsFixed() { RunDir? || Tag? || Ctx? || GenTokens? || ModelPath? }

    /** The rates of a throughput line. */
    predicate IsThroughput() { PromptTps? || GenTps? }

    /** The six values of a Metal memory breakdown. */
    predicate IsMetal() {
      MetalFree? || MetalUsed? || MetalModel? || MetalContext? || MetalCompute? || MetalUnaccounted?
    }

    /** The statistics the analyser computes from the sampled metrics. */
    predicate IsStat() {
      RssPeakMb? || RssMeanMb? || CpuMeanPct? || PageinsFinal? || PageoutsFinal? || DurationS?
    }
  }

  /** Distinct fields are stored under distinct JSON keys, so a record over
      `Field` stands for a JSON object without key clashes. */
  lemma NameInjective(a: Field, b: Field)
    ensures a.Name() == b.Name() ==> a == b
  {
  }

  /** A summary record: a JSON object from field to scalar. */
  type Record = map<Field, Value>

  /** Python's `d.get(key, default)`. */
  function Get<K, V>(m: map<K, V>, key: K, default: V): (v: V)
    ensures key in m ==> v == m[key]
    ensures key !in m ==> v == default
  {
    if key in m then m[key] else default
  }
}
