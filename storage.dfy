/** The device storage behind `loadAttempts`/`persistAttempts` and
    `loadCustomTests`/`persistCustomTests`: two slots, each overwritten as a whole by a
    save (last writer wins) and read back as a whole by a load. How the slots are encoded
    is not part of this model. */
module Storage {
  import opened Types

  class LocalStore {
    var attempts: seq<TestAttempt>
    var customTests: seq<MockTest>

    constructor (attempts: seq<TestAttempt>, customTests: seq<MockTest>)
      ensures this.attempts == attempts && this.customTests == customTests
    {
      this.attempts := attempts;
      this.customTests := customTests;
    }
  }
}
