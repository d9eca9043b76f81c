TestResult.DisplayName,TestResult.Outcome,TestResult.Duration,TestResult.ResourceCount,RandomSeed
Rdb.EmitSplit (correctness),Passed,00:00:00.5812088,1840533,1
Rdb.EmitSplit (well-formedness),Passed,00:00:00.0904816,38604,1
