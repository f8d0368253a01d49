/** The `sleep` user program (apps/src/bin/sleep.rs): duration arguments
    with an optional s/m/h/d suffix, summed into one sleep. */
module Sleep {
  import opened Wrappers

  /** usize on the 64-bit target; `*` and `+=` wrap (release build). */
  const USIZE: nat := 0x1_0000_0000_0000_0000

  const MS_PER_SECOND: nat := 1000
  const SECONDS_PER_MINUTE: nat := 60
  const SECONDS_PER_HOUR: nat := 3600
  const SECONDS_PER_DAY: nat := 86400

  datatype Result<T> = Ok(value: T) | Err(message: string)

  predicate IsDigit(c: char)
  {
    '0' <= c <= '9'
  }

  predicate AllDigits(s: string)
  {
    forall i :: 0 <= i < |s| ==> IsDigit(s[i])
  }

  /** The number the decimal digits spell, most significant first. */
  function DigitsValue(s: string): nat
    requires AllDigits(s)
  {
    if s == [] then 0 else DigitsValue(s[..|s| - 1]) * 10 + (s[|s| - 1] as int - '0' as int)
  }

  /** `str::parse::<usize>`: an optional '+', then at least one decimal
      digit and nothing else, of a value that fits in a usize. */
  function ParseUsize(s: string): (r: Option<nat>)
    ensures r.Some? ==> r.value < USIZE
  {
    var digits := if |s| > 0 && s[0] == '+' then s[1..] else s;
    if digits == [] || !AllDigits(digits) then None
    else if DigitsValue(digits) < USIZE then Some(DigitsValue(digits))
    else None
  }

  /** The decimal form of n, as a user types it. */
  function Decimal(n: nat): (s: string)
    ensures s != [] && AllDigits(s)
  {
    if n < 10 then [('0' as int + n) as char]
    else Decimal(n / 10) + [('0' as int + n % 10) as char]
  }

  /** Reading a number's decimal form gives the number. */
  lemma {:induction false} DecimalValue(n: nat)
    ensures DigitsValue(Decimal(n)) == n
  {
    var s := Decimal(n);
    if n >= 10 {
      DecimalValue(n / 10);
      assert s[..|s| - 1] == Decimal(n / 10);
    }
  }

  /** Every number a usize holds parses back from its decimal form. */
  lemma ParseDecimal(n: nat)
    requires n < USIZE
    ensures ParseUsize(Decimal(n)) == Some(n)
  {
    DecimalValue(n);
    assert Decimal(n)[0] != '+';
  }

  /** `parse_time_argument`: a plain number is seconds; otherwise the last
      character is the unit and the rest must be a number. An empty
      argument would make `arg.len() - 1` underflow; `main` never passes
      one. */
  function ParseTimeArgument(arg: string): (r: Result<nat>)
    requires arg != []
    ensures r.Ok? ==> r.value < USIZE
  {
    match ParseUsize(arg)
    case Some(time) => Ok(time * MS_PER_SECOND % USIZE)
    case None =>
      var numPart, unit := arg[..|arg| - 1], arg[|arg| - 1];
      match ParseUsize(numPart)
      case None => Err("Invalid number")
      case Some(number) => InUnit(number, unit)
  }

  /** The `match unit` of `parse_time_argument`. */
  function InUnit(number: nat, unit: char): (r: Result<nat>)
    ensures r.Ok? ==> r.value < USIZE
  {
    if unit == 's' then Ok(number * MS_PER_SECOND % USIZE)
    else if unit == 'm' then Ok(number * SECONDS_PER_MINUTE * MS_PER_SECOND % USIZE)
    else if unit == 'h' then Ok(number * SECONDS_PER_HOUR * MS_PER_SECOND % USIZE)
    else if unit == 'd' then Ok(number * SECONDS_PER_DAY * MS_PER_SECOND % USIZE)
    else Err("Unsupported time unit")
  }

  /** The milliseconds in one unit. */
  function UnitMs(unit: char): Option<nat>
  {
    if unit == 's' then Some(1000)
    else if unit == 'm' then Some(60000)
    else if unit == 'h' then Some(3600000)
    else if unit == 'd' then Some(86400000)
    else None
  }

  /** A number typed alone is seconds. */
  lemma PlainSeconds(n: nat)
    requires n < USIZE
    ensures ParseTimeArgument(Decimal(n)) == Ok(n * 1000 % USIZE)
  {
    ParseDecimal(n);
  }

  /** A number with a unit suffix is that many units, in milliseconds; an
      unknown suffix is refused. */
  lemma WithUnit(n: nat, unit: char)
    requires n < USIZE && !IsDigit(unit)
    ensures UnitMs(unit).Some? ==> ParseTimeArgument(Decimal(n) + [unit]) == Ok(n * UnitMs(unit).value % USIZE)
    ensures UnitMs(unit).None? ==> ParseTimeArgument(Decimal(n) + [unit]) == Err("Unsupported time unit")
  {
    var arg := Decimal(n) + [unit];
    assert !AllDigits(arg) by {
      assert !IsDigit(arg[|arg| - 1]);
    }
    assert arg[0] == Decimal(n)[0];
    assert arg[..|arg| - 1] == Decimal(n);
    ParseDecimal(n);
    assert n * SECONDS_PER_MINUTE * MS_PER_SECOND == n * 60000;
    assert n * SECONDS_PER_HOUR * MS_PER_SECOND == n * 3600000;
    assert n * SECONDS_PER_DAY * MS_PER_SECOND == n * 86400000;
  }

  /** A prefix that is no number is refused as such, whatever the unit. */
  lemma BadNumber(prefix: string, unit: char)
    requires prefix != [] && !IsDigit(prefix[0]) && prefix[0] != '+'
    ensures ParseTimeArgument(prefix + [unit]) == Err("Invalid number")
  {
    var arg := prefix + [unit];
    assert arg[0] == prefix[0];
    assert arg[..|arg| - 1] == prefix;
  }

  /** What main does with the arguments after `acc` milliseconds so far:
      the wrapped sum it sleeps for, or the first argument's error. */
  function Total(args: seq<string>, acc: nat): (r: Result<nat>)
    requires acc < USIZE
    ensures r.Ok? ==> r.value < USIZE
    decreases |args|
  {
    if args == [] then Ok(acc)
    else if args[0] == [] then Total(args[1..], acc)
    else match ParseTimeArgument(args[0])
      case Err(e) => Err(e)
      case Ok(ms) => Total(args[1..], (acc + ms) % USIZE)
  }

  /** Every non-empty argument parses, which is when main sleeps. */
  ghost predicate AllParse(args: seq<string>)
  {
    forall i :: 0 <= i < |args| && args[i] != [] ==> ParseTimeArgument(args[i]).Ok?
  }

  /** One argument further into the list, with its milliseconds added. */
  lemma TotalStep(args: seq<string>, i: nat, acc: nat)
    requires i < |args| && acc < USIZE
    ensures args[i] == [] ==> Total(args[i..], acc) == Total(args[i + 1..], acc)
    ensures args[i] != [] && ParseTimeArgument(args[i]).Err? ==> Total(args[i..], acc) == Err(ParseTimeArgument(args[i]).message)
    ensures args[i] != [] && ParseTimeArgument(args[i]).Ok? ==>
      Total(args[i..], acc) == Total(args[i + 1..], (acc + ParseTimeArgument(args[i]).value) % USIZE)
  {
    assert args[i..][0] == args[i] && args[i..][1..] == args[i + 1..];
  }

  /** `main`: skips argv[0] and empty arguments, adds up the others and
      sleeps that long with exit code 0; on the first argument that does
      not parse it returns 1 without sleeping. */
  method SleepMain(argv: seq<string>) returns (code: int, sleepMs: Option<nat>)
    ensures code == 0 || code == 1
    ensures code == 1 <==> |argv| > 1 && Total(argv[1..], 0).Err?
    ensures code == 0 ==> sleepMs == Some(if |argv| > 1 then Total(argv[1..], 0).value else 0)
    ensures code == 1 ==> sleepMs.None?
  {
    var args := if |argv| > 1 then argv[1..] else [];
    var total: nat := 0;
    var i := 0;
    while i < |args|
      invariant i <= |args| && total < USIZE
      invariant Total(args[i..], total) == Total(args, 0)
      decreases |args| - i
    {
      var arg := args[i];
      TotalStep(args, i, total);
      if arg == [] {
        i := i + 1;
        continue;
      }
      var parsed := ParseTimeArgument(arg);
      if parsed.Err? {
        return 1, None;
      }
      total := (total + parsed.value) % USIZE;
      i := i + 1;
    }
    assert args[i..] == [];
    code, sleepMs := 0, Some(total);
  }

  /** main sleeps exactly when every non-empty argument parses. */
  lemma {:induction false} TotalSums(args: seq<string>, acc: nat)
    requires acc < USIZE
    ensures Total(args, acc).Ok? <==> AllParse(args)
    decreases |args|
  {
    if args != [] {
      assert AllParse(args) <==> (args[0] != [] ==> ParseTimeArgument(args[0]).Ok?) && AllParse(args[1..]) by {
        forall i | 0 <= i < |args[1..]|
          ensures args[1..][i] == args[i + 1]
        {
        }
        if (args[0] != [] ==> ParseTimeArgument(args[0]).Ok?) && AllParse(args[1..]) {
          forall i | 0 <= i < |args| && args[i] != []
            ensures ParseTimeArgument(args[i]).Ok?
          {
            if i > 0 {
              assert args[i] == args[1..][i - 1];
            }
          }
        }
      }
      if args[0] == [] {
        TotalSums(args[1..], acc);
      } else if ParseTimeArgument(args[0]).Ok? {
        TotalSums(args[1..], (acc + ParseTimeArgument(args[0]).value) % USIZE);
      }
    }
  }
}
