/** The service's own result shape (`MusicRecognitionResult`). */
module Models {

  /**
   * A recognised song. `confidence` is the provider's score divided by 100,
   * kept as a real number.
   */
  datatype MusicRecognitionResult = MusicRecognitionResult(
    title: string,
    artist: string,
    confidence: real,
    songId: string)
}
