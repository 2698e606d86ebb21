/** The image generator of public/script.js:148-175: `createImage` trims the prompt, shows
    a loading message, and then the image whose address carries the encoded prompt, or a
    failure message. */
module Images {
  import opened Wrappers
  import opened Text

  const ImageEndpoint: string := "https://text-to-image-template.trongphucpython.workers.dev/?prompt="
  const LoadingHtml: string := "<span>Đang tạo ảnh...</span>"
  const FailureHtml: string := "<span>❌ Không tạo được ảnh.</span>"

  /** The markup of a generated image for the encoded prompt. */
  function ImageHtml(encoded: string): string {
    "<img src=\"" + ImageEndpoint + encoded + "\" alt=\"Ảnh AI tạo từ mô tả\">"
  }

  /** The image box: the prompt input, the send button's `disabled` and the result's
      `innerHTML`. */
  class ImageGenerator {
    var prompt: string
    var buttonDisabled: bool
    var result: string

    constructor (prompt: string)
      ensures this.prompt == prompt && !buttonDisabled && result == ""
    {
      this.prompt := prompt;
      buttonDisabled := false;
      result := "";
    }

    /** `createImage()`. `encode` is `encodeURIComponent`, which fails (`None`) on text it
        cannot encode. A prompt that is blank after trimming changes nothing; otherwise the
        result shows the image for the encoded trimmed prompt, or the failure message, and
        the button ends enabled. */
    method CreateImage(encode: string -> Option<string>)
      modifies this
      ensures prompt == old(prompt)
      ensures Trim(old(prompt)) == "" ==> buttonDisabled == old(buttonDisabled) && result == old(result)
      ensures Trim(old(prompt)) != "" ==>
                !buttonDisabled
                && result == match encode(Trim(old(prompt))) case Some(e) => ImageHtml(e) case None => FailureHtml
    {
      var p := Trim(prompt);
      if p == "" {
        return;
      }
      buttonDisabled := true;
      result := LoadingHtml;
      match encode(p) {
        case Some(e) => result := ImageHtml(e);
        case None => result := FailureHtml;
      }
      buttonDisabled := false;
    }
  }
}
